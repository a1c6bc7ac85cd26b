/** Storing a value by way of a temporary file that is synced and renamed over the destination. */
module AtomicFile {
  import opened Wrappers

  type Bytes = seq<int>

  // ---------------------------------------------------------------- one writer in place

  /** A directory of names for numbered files. */
  class Disk {
    var names: map<string, nat>
    var files: map<nat, Bytes>

    constructor ()
    {
      names, files := map[], map[];
    }

    ghost predicate Valid()
      reads this
    {
      forall n :: n in names ==> names[n] in files
    }

    /** What a reader of `name` sees. */
    function Visible(name: string): Option<Bytes>
      reads this
    {
      if name in names && names[name] in files then Some(files[names[name]]) else None
    }
  }

  class TempFile {
    const disk: Disk
    const name: string
    const temp: string
    const file: nat
    var closed: bool

    /** The temporary name is one no other file has. */
    ghost predicate Valid()
      reads this, disk
    {
      && disk.Valid() && temp != name
      && (!closed ==> temp in disk.names && disk.names[temp] == file)
      && (!closed ==> forall n :: n in disk.names && n != temp ==> disk.names[n] != file)
    }

    constructor (disk: Disk, name: string, temp: string, file: nat)
      requires disk.Valid() && temp !in disk.names && temp != name && file !in disk.files
      modifies disk
      ensures Valid() && !closed && this.disk == disk && this.name == name && this.temp == temp && this.file == file
      ensures disk.names == old(disk.names)[temp := file] && disk.files == old(disk.files)[file := []]
    {
      this.disk, this.name, this.temp, this.file, closed := disk, name, temp, file, false;
      new;
      disk.names, disk.files := disk.names[temp := file], disk.files[file := []];
    }

    /** The system may take only a part of the bytes, which is an error; a closed file takes none. */
    method Write(p: Bytes, taken: nat) returns (ok: bool)
      requires Valid() && taken <= |p|
      modifies disk`files
      ensures Valid() && disk.files.Keys == old(disk.files.Keys)
      ensures ok == (!closed && taken == |p|)
      ensures closed ==> disk.files == old(disk.files)
      ensures !closed ==> disk.files == old(disk.files)[file := old(disk.files[file]) + p[..taken]]
    {
      if closed {
        return false;
      }
      disk.files := disk.files[file := disk.files[file] + p[..taken]];
      return taken == |p|;
    }

    /** Sync, close, rename: only if all three succeed does the destination change, and then at once.
        On a closed file nothing happens. */
    method Close(syncs: bool, closes: bool, renames: bool) returns (ok: bool)
      requires Valid()
      modifies this`closed, disk`names
      ensures Valid() && closed
      ensures old(closed) ==> ok && disk.names == old(disk.names)
      ensures !old(closed) ==> ok == (syncs && closes && renames)
      ensures !old(closed) ==> disk.names == (if ok then old(disk.names)[name := file] else old(disk.names)) - {temp}
    {
      if closed {
        return true;
      }
      closed := true;
      if !syncs || !closes || !renames {
        disk.names := disk.names - {temp};
        return false;
      }
      disk.names := disk.names[name := file] - {temp};
      return true;
    }

    method Cancel()
      requires Valid()
      modifies this`closed, disk`names
      ensures Valid() && closed
      ensures disk.names == if old(closed) then old(disk.names) else old(disk.names) - {temp}
    {
      if closed {
        return;
      }
      closed := true;
      disk.names := disk.names - {temp};
    }
  }

  /** Either the complete value becomes visible at the key, or nothing changes at any key. */
  method Store(disk: Disk, key: string, value: Bytes, temp: string, file: nat,
               taken: nat, syncs: bool, closes: bool, renames: bool) returns (ok: bool)
    requires disk.Valid() && temp !in disk.names && temp != key && file !in disk.files && taken <= |value|
    modifies disk
    ensures disk.Valid() && ok == (taken == |value| && syncs && closes && renames)
    ensures disk.Visible(key) == if ok then Some(value) else old(disk.Visible(key))
    ensures forall k :: k != key ==> disk.Visible(k) == old(disk.Visible(k))
  {
    var fp := new TempFile(disk, key, temp, file);
    ok := fp.Write(value, taken);
    if !ok {
      fp.Cancel();
      return;
    }
    assert [] + value[..taken] == value;
    ok := fp.Close(syncs, closes, renames);
  }

  // ---------------------------------------------------------------- many writers and readers

  datatype Phase = Writing | Synced | Closed | Renamed | Abandoned

  datatype Writer = Writer(key: string, value: Bytes, file: nat, phase: Phase)

  /** A reader has opened one file and read a part of it; `seen` is what the key showed when it opened. */
  datatype Reader = Reader(key: string, file: nat, got: Bytes, seen: Bytes)

  /** `history` lists what each key has shown, latest last: its initial value and then the complete
      values of the stores renamed to it. */
  datatype State = State(names: map<string, nat>, files: map<nat, Bytes>, next: nat,
                         writers: map<nat, Writer>, readers: map<nat, Reader>, history: map<string, seq<Bytes>>)

  datatype Action =
    | Begin(w: nat, key: string, value: Bytes)
    | Write(w: nat, n: nat)
    | Sync(w: nat)
    | CloseFile(w: nat)
    | Rename(w: nat)
    | Fail(w: nat)
    | Open(r: nat, key: string)
    | Read(r: nat, n: nat)

  predicate Enabled(s: State, a: Action) {
    match a
    case Begin(w, _, _) => w !in s.writers
    case Write(w, n) => w in s.writers && s.writers[w].phase.Writing? && s.writers[w].file in s.files
                        && |s.files[s.writers[w].file]| + n <= |s.writers[w].value|
    case Sync(w) => w in s.writers && s.writers[w].phase.Writing? && s.writers[w].file in s.files
                    && |s.files[s.writers[w].file]| == |s.writers[w].value|
    case CloseFile(w) => w in s.writers && s.writers[w].phase.Synced?
    case Rename(w) => w in s.writers && s.writers[w].phase.Closed?
    case Fail(w) => w in s.writers && !s.writers[w].phase.Renamed? && !s.writers[w].phase.Abandoned?
    case Open(r, key) => r !in s.readers && key in s.names && s.names[key] in s.files
    case Read(r, n) => r in s.readers && s.readers[r].file in s.files
                       && |s.readers[r].got| + n <= |s.files[s.readers[r].file]|
  }

  function Past(s: State, key: string): seq<Bytes> {
    if key in s.history then s.history[key] else []
  }

  function Apply(s: State, a: Action): State
    requires Enabled(s, a)
  {
    match a
    case Begin(w, key, value) =>
      s.(files := s.files[s.next := []], next := s.next + 1, writers := s.writers[w := Writer(key, value, s.next, Writing)])
    case Write(w, n) =>
      var wr := s.writers[w];
      var m := |s.files[wr.file]|;
      s.(files := s.files[wr.file := s.files[wr.file] + wr.value[m..m + n]])
    case Sync(w) => s.(writers := s.writers[w := s.writers[w].(phase := Synced)])
    case CloseFile(w) => s.(writers := s.writers[w := s.writers[w].(phase := Closed)])
    case Rename(w) =>
      var wr := s.writers[w];
      s.(names := s.names[wr.key := wr.file], writers := s.writers[w := wr.(phase := Renamed)],
         history := s.history[wr.key := Past(s, wr.key) + [wr.value]])
    case Fail(w) => s.(writers := s.writers[w := s.writers[w].(phase := Abandoned)])
    case Open(r, key) =>
      s.(readers := s.readers[r := Reader(key, s.names[key], [], s.files[s.names[key]])])
    case Read(r, n) =>
      var rd := s.readers[r];
      var m := |rd.got|;
      s.(readers := s.readers[r := rd.(got := rd.got + s.files[rd.file][m..m + n])])
  }

  predicate Private(ph: Phase) {
    ph.Writing? || ph.Synced? || ph.Closed?
  }

  ghost predicate WriterOk(s: State, w: nat)
    requires w in s.writers
  {
    var wr := s.writers[w];
    && wr.file < s.next && wr.file in s.files
    && (wr.phase.Writing? ==> s.files[wr.file] <= wr.value)
    && (wr.phase.Synced? || wr.phase.Closed? ==> s.files[wr.file] == wr.value)
    && (Private(wr.phase) ==> forall k :: k in s.names ==> s.names[k] != wr.file)
    && (Private(wr.phase) ==> forall r :: r in s.readers ==> s.readers[r].file != wr.file)
    && (forall v :: v in s.writers && s.writers[v].file == wr.file ==> v == w)
  }

  /** What a key shows is the latest value of its history, whole. */
  ghost predicate KeyOk(s: State, k: string)
    requires k in s.names
  {
    && s.names[k] < s.next && s.names[k] in s.files
    && Past(s, k) != [] && s.files[s.names[k]] == Past(s, k)[|Past(s, k)| - 1]
  }

  /** What a reader gets is a part of what the key showed when it was opened. */
  ghost predicate ReaderOk(s: State, r: nat)
    requires r in s.readers
  {
    var rd := s.readers[r];
    && rd.file < s.next && rd.file in s.files && s.files[rd.file] == rd.seen
    && rd.got <= rd.seen && rd.seen in Past(s, rd.key)
  }

  ghost predicate Inv(s: State) {
    && (forall f :: f in s.files ==> f < s.next)
    && (forall w :: w in s.writers ==> WriterOk(s, w))
    && (forall k :: k in s.names ==> KeyOk(s, k))
    && (forall r :: r in s.readers ==> ReaderOk(s, r))
  }

  lemma WriteKeepsInv(s: State, a: Action)
    requires Inv(s) && a.Write? && Enabled(s, a)
    ensures Inv(Apply(s, a))
  {
    var s' := Apply(s, a);
    assert WriterOk(s, a.w);
    forall w | w in s'.writers ensures WriterOk(s', w) {
      assert WriterOk(s, w);
    }
    forall k | k in s'.names ensures KeyOk(s', k) {
      assert KeyOk(s, k);
    }
    forall r | r in s'.readers ensures ReaderOk(s', r) {
      assert ReaderOk(s, r);
    }
  }

  lemma BeginKeepsInv(s: State, a: Action)
    requires Inv(s) && a.Begin? && Enabled(s, a)
    ensures Inv(Apply(s, a))
  {
    var s' := Apply(s, a);
    forall k | k in s'.names ensures KeyOk(s', k) && s'.names[k] != s.next {
      assert KeyOk(s, k);
    }
    forall r | r in s'.readers ensures ReaderOk(s', r) && s'.readers[r].file != s.next {
      assert ReaderOk(s, r);
    }
    forall w | w in s.writers ensures s.writers[w].file < s.next {
      assert WriterOk(s, w);
    }
    forall w | w in s'.writers ensures WriterOk(s', w) {
      assert w in s.writers ==> WriterOk(s, w);
    }
  }

  /** A writer moves on towards its rename, or gives up. */
  lemma PhaseStepKeepsInv(s: State, a: Action)
    requires Inv(s) && (a.Sync? || a.CloseFile? || a.Fail?) && Enabled(s, a)
    ensures Inv(Apply(s, a))
  {
    var s' := Apply(s, a);
    var phase := s'.writers[a.w].phase;
    assert s' == s.(writers := s.writers[a.w := s.writers[a.w].(phase := phase)]);
    forall k | k in s'.names ensures KeyOk(s', k) {
      assert KeyOk(s, k);
    }
    forall r | r in s'.readers ensures ReaderOk(s', r) {
      assert ReaderOk(s, r);
    }
    forall w | w in s'.writers ensures WriterOk(s', w) {
      assert WriterOk(s, w);
    }
  }

  lemma RenameKeepsInv(s: State, a: Action)
    requires Inv(s) && a.Rename? && Enabled(s, a)
    ensures Inv(Apply(s, a))
  {
    var s' := Apply(s, a);
    assert WriterOk(s, a.w);
    forall k | k in s'.names ensures KeyOk(s', k) {
      assert k in s.names ==> KeyOk(s, k);
    }
    forall r | r in s'.readers ensures ReaderOk(s', r) {
      assert ReaderOk(s, r);
    }
    forall w | w in s'.writers ensures WriterOk(s', w) {
      assert WriterOk(s, w);
    }
  }

  lemma OpenKeepsInv(s: State, a: Action)
    requires Inv(s) && a.Open? && Enabled(s, a)
    ensures Inv(Apply(s, a))
  {
    var s' := Apply(s, a);
    assert KeyOk(s, a.key);
    forall k | k in s'.names ensures KeyOk(s', k) {
      assert KeyOk(s, k);
    }
    forall r | r in s'.readers ensures ReaderOk(s', r) {
      assert r in s.readers ==> ReaderOk(s, r);
    }
    forall w | w in s'.writers ensures WriterOk(s', w) {
      assert WriterOk(s, w);
    }
  }

  lemma ReadKeepsInv(s: State, a: Action)
    requires Inv(s) && a.Read? && Enabled(s, a)
    ensures Inv(Apply(s, a))
  {
    var s' := Apply(s, a);
    assert ReaderOk(s, a.r);
    forall k | k in s'.names ensures KeyOk(s', k) {
      assert KeyOk(s, k);
    }
    forall r | r in s'.readers ensures ReaderOk(s', r) {
      assert r in s.readers ==> ReaderOk(s, r);
    }
    forall w | w in s'.writers ensures WriterOk(s', w) {
      assert WriterOk(s, w);
    }
  }

  lemma StepKeepsInv(s: State, a: Action)
    requires Inv(s) && Enabled(s, a)
    ensures Inv(Apply(s, a))
  {
    if a.Write? {
      WriteKeepsInv(s, a);
    } else if a.Rename? {
      RenameKeepsInv(s, a);
    } else if a.Open? {
      OpenKeepsInv(s, a);
    } else if a.Read? {
      ReadKeepsInv(s, a);
    } else if a.Begin? {
      BeginKeepsInv(s, a);
    } else {
      PhaseStepKeepsInv(s, a);
    }
  }

  /** Nothing but a rename changes what any key shows, and it changes its own key only. */
  lemma OnlyRenameShows(s: State, a: Action, k: string)
    requires Inv(s) && Enabled(s, a) && k in s.names
    ensures var s' := Apply(s, a);
            && k in s'.names && s'.names[k] in s'.files && s.names[k] in s.files
            && s'.files[s'.names[k]] == if a.Rename? && s.writers[a.w].key == k then s.writers[a.w].value else s.files[s.names[k]]
  {
    StepKeepsInv(s, a);
    assert KeyOk(s, k) && KeyOk(Apply(s, a), k);
    if a.Write? {
      assert WriterOk(s, a.w);
    }
  }

  ghost predicate Runs(s: State, acts: seq<Action>)
    decreases |acts|
  {
    acts == [] || (Enabled(s, acts[0]) && Runs(Apply(s, acts[0]), acts[1..]))
  }

  ghost function After(s: State, acts: seq<Action>): State
    requires Runs(s, acts)
    decreases |acts|
  {
    if acts == [] then s else After(Apply(s, acts[0]), acts[1..])
  }

  lemma {:induction false} RunsKeepInv(s: State, acts: seq<Action>)
    requires Inv(s) && Runs(s, acts)
    ensures Inv(After(s, acts))
    decreases |acts|
  {
    if acts != [] {
      StepKeepsInv(s, acts[0]);
      RunsKeepInv(Apply(s, acts[0]), acts[1..]);
    }
  }

  /** Some keys show some content; nobody writes or reads yet. */
  ghost predicate Initial(s: State) {
    && (forall f :: f in s.files ==> f < s.next)
    && s.writers == map[] && s.readers == map[]
    && s.history.Keys == s.names.Keys
    && (forall k :: k in s.names ==> s.names[k] in s.files && s.history[k] == [s.files[s.names[k]]])
  }

  /** In every interleaving of writers and readers, a key shows its initial content or the complete
      value of the last store renamed to it, and a reader that reads to the end gets exactly what its
      key showed at one instant, whatever is stored meanwhile. */
  lemma ReadsAreAtomic(s: State, acts: seq<Action>)
    requires Initial(s) && Runs(s, acts)
    ensures var e := After(s, acts);
      && (forall k :: k in e.names ==> KeyOk(e, k))
      && (forall r :: r in e.readers && e.readers[r].file in e.files && |e.readers[r].got| == |e.files[e.readers[r].file]| ==>
            e.readers[r].got == e.readers[r].seen && e.readers[r].got in Past(e, e.readers[r].key))
  {
    RunsKeepInv(s, acts);
    var e := After(s, acts);
    forall r | r in e.readers && e.readers[r].file in e.files && |e.readers[r].got| == |e.files[e.readers[r].file]|
      ensures e.readers[r].got == e.readers[r].seen && e.readers[r].got in Past(e, e.readers[r].key)
    {
      assert ReaderOk(e, r);
    }
  }

  /** From any state a store can be carried through, after which its key shows its value and no other key
      has changed. */
  lemma StoresCanComplete(s: State, w: nat, key: string, value: Bytes)
    requires Inv(s) && w !in s.writers
    ensures Runs(s, StoreSteps(w, key, value))
    ensures var e := After(s, StoreSteps(w, key, value));
            && key in e.names && e.names[key] in e.files && e.files[e.names[key]] == value
            && forall k :: k in s.names && k != key ==>
                 && k in e.names && s.names[k] in s.files && e.names[k] in e.files
                 && e.files[e.names[k]] == s.files[s.names[k]]
  {
    StoreGoesThrough(s, w, key, value);
    forall k | k in s.names ensures s.names[k] < s.next && s.names[k] in s.files {
      assert KeyOk(s, k);
    }
  }

  function StoreSteps(w: nat, key: string, value: Bytes): seq<Action> {
    [Begin(w, key, value), Write(w, |value|), Sync(w), CloseFile(w), Rename(w)]
  }

  /** A writer that has written everything can be synced, closed and renamed. */
  lemma WrittenGoesThrough(s: State, w: nat)
    requires w in s.writers && s.writers[w].phase.Writing? && s.writers[w].file in s.files
    requires |s.files[s.writers[w].file]| == |s.writers[w].value|
    ensures Runs(s, [Sync(w), CloseFile(w), Rename(w)])
    ensures var e := After(s, [Sync(w), CloseFile(w), Rename(w)]);
            e.names == s.names[s.writers[w].key := s.writers[w].file] && e.files == s.files
  {
    var c := Apply(s, Sync(w));
    var d := Apply(c, CloseFile(w));
    var e := Apply(d, Rename(w));
    assert Runs(e, []) && After(e, []) == e;
    RunsStep(d, Rename(w), e, []);
    RunsStep(c, CloseFile(w), d, [Rename(w)]);
    RunsStep(s, Sync(w), c, [CloseFile(w), Rename(w)]);
  }

  lemma StoreGoesThrough(s: State, w: nat, key: string, value: Bytes)
    requires w !in s.writers
    ensures Runs(s, StoreSteps(w, key, value))
    ensures var e := After(s, StoreSteps(w, key, value)); e.names == s.names[key := s.next] && e.files == s.files[s.next := value]
  {
    var a := Apply(s, Begin(w, key, value));
    var b := Apply(a, Write(w, |value|));
    assert [] + value[0..|value|] == value;
    assert b == a.(files := s.files[s.next := value]);
    WrittenGoesThrough(b, w);
    RunsStep(a, Write(w, |value|), b, [Sync(w), CloseFile(w), Rename(w)]);
    RunsStep(s, Begin(w, key, value), a, [Write(w, |value|), Sync(w), CloseFile(w), Rename(w)]);
  }

  lemma RunsStep(s: State, a: Action, s': State, acts: seq<Action>)
    requires Enabled(s, a) && Apply(s, a) == s' && Runs(s', acts)
    ensures Runs(s, [a] + acts) && After(s, [a] + acts) == After(s', acts)
  {
    assert ([a] + acts)[1..] == acts;
  }

  /** A writer can give up at any time before its rename. */
  lemma WritersMayFail(s: State, w: nat)
    requires w in s.writers && Private(s.writers[w].phase)
    ensures Enabled(s, Fail(w)) && Apply(s, Fail(w)) == s.(writers := s.writers[w := s.writers[w].(phase := Abandoned)])
  {}

  /** A reader can open any key that shows something and read it to the end. */
  lemma ReadsCanComplete(s: State, r: nat, key: string)
    requires Inv(s) && r !in s.readers && key in s.names
    ensures s.names[key] in s.files && Enabled(s, Open(r, key))
    ensures var (a, content) := (Apply(s, Open(r, key)), s.files[s.names[key]]);
            Enabled(a, Read(r, |content|)) && Apply(a, Read(r, |content|)).readers[r].got == content
  {
    assert KeyOk(s, key);
  }
}
