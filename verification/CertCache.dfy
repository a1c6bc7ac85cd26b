/** The in-memory certificate cache and its name index, which must always agree. */
module CertCache {
  import opened Names

  datatype Certificate = Certificate(
    names: seq<string>, tags: seq<string>, hash: string, managed: bool, issuerKey: string,
    staple: int, ari: int, notBefore: nat, notAfter: nat)

  /** What a lookup of an unknown hash yields: the zero value, with an empty hash and no names. */
  const ZERO := Certificate([], [], "", false, "", 0, 0, 0, 0)

  type Index = map<string, seq<string>>

  datatype State = State(certs: map<string, Certificate>, index: Index)

  const EMPTY := State(map[], map[])

  // ---------------------------------------------------------------- operations on values

  function Lookup(index: Index, name: string): seq<string> {
    if name in index then index[name] else []
  }

  function Without(list: seq<string>, h: string): seq<string> {
    if list == [] then []
    else if list[0] == h then Without(list[1..], h)
    else [list[0]] + Without(list[1..], h)
  }

  function AddOne(index: Index, name: string, h: string): Index {
    index[name := Lookup(index, name) + [h]]
  }

  function DropOne(index: Index, name: string, h: string): Index {
    var list := Without(Lookup(index, name), h);
    if list == [] then index - {name} else index[name := list]
  }

  function IndexAdd(index: Index, names: seq<string>, h: string): Index {
    if names == [] then index
    else AddOne(IndexAdd(index, names[..|names| - 1], h), names[|names| - 1], h)
  }

  function IndexDrop(index: Index, names: seq<string>, h: string): Index {
    if names == [] then index
    else DropOne(IndexDrop(index, names[..|names| - 1], h), names[|names| - 1], h)
  }

  function AddTags(tags: seq<string>, more: seq<string>): seq<string> {
    if more == [] then tags
    else
      var n := |more| - 1;
      var rest := AddTags(tags, more[..n]);
      if more[n] in rest then rest else rest + [more[n]]
  }

  /** Merging keeps the old tags in front, adds exactly the missing ones, and each of them once. */
  lemma {:induction false} AddTagsFacts(tags: seq<string>, more: seq<string>)
    ensures tags <= AddTags(tags, more)
    ensures forall t :: t in AddTags(tags, more) <==> t in tags || t in more
    ensures forall i, j :: 0 <= i < j < |AddTags(tags, more)| && |tags| <= j ==> AddTags(tags, more)[i] != AddTags(tags, more)[j]
  {
    if more != [] {
      var n := |more| - 1;
      AddTagsFacts(tags, more[..n]);
      assert more == more[..n] + [more[n]];
    }
  }

  function RemoveCert(s: State, cert: Certificate): State {
    State(s.certs - {cert.hash}, IndexDrop(s.index, cert.names, cert.hash))
  }

  predicate AtCapacity(s: State, capacity: nat) {
    capacity > 0 && |s.certs| >= capacity
  }

  /** A full cache evicts some random cached certificate, here the one with hash `victim`. */
  predicate CanEvict(s: State, capacity: nat, victim: string) {
    AtCapacity(s, capacity) ==> victim in s.certs
  }

  function Insert(s: State, cert: Certificate, capacity: nat, victim: string): State
    requires cert.hash in s.certs || CanEvict(s, capacity, victim)
  {
    if cert.hash in s.certs then
      s.(certs := s.certs[cert.hash := s.certs[cert.hash].(tags := AddTags(s.certs[cert.hash].tags, cert.tags))])
    else
      var room := if AtCapacity(s, capacity) then RemoveCert(s, s.certs[victim]) else s;
      State(room.certs[cert.hash := cert], IndexAdd(room.index, cert.names, cert.hash))
  }

  function RemoveHashes(s: State, hashes: seq<string>): State {
    if hashes == [] then s
    else
      var n := |hashes| - 1;
      var rest := RemoveHashes(s, hashes[..n]);
      RemoveCert(rest, if hashes[n] in rest.certs then rest.certs[hashes[n]] else ZERO)
  }

  // ---------------------------------------------------------------- agreement of cache and index

  function Occurs(index: Index, name: string, h: string): nat {
    multiset(Lookup(index, name))[h]
  }

  function Expected(certs: map<string, Certificate>, name: string, h: string): nat {
    if h in certs then multiset(certs[h].names)[name] else 0
  }

  ghost predicate NoEmptyLists(index: Index) {
    forall n :: n in index ==> index[n] != []
  }

  /** The index lists each cached hash under a name as often as its certificate has the name, and
      nothing else; no list is empty; each certificate is stored under its own hash. */
  ghost predicate Agree(s: State) {
    && (forall h :: h in s.certs ==> s.certs[h].hash == h)
    && NoEmptyLists(s.index)
    && (forall n, h :: Occurs(s.index, n, h) == Expected(s.certs, n, h))
  }

  lemma {:induction false} WithoutCounts(list: seq<string>, h: string)
    ensures multiset(Without(list, h)) == multiset(list)[h := 0]
  {
    if list != [] {
      WithoutCounts(list[1..], h);
      assert list == [list[0]] + list[1..];
    }
  }

  lemma AddOneCounts(index: Index, name: string, h: string, n: string, k: string)
    requires NoEmptyLists(index)
    ensures NoEmptyLists(AddOne(index, name, h))
    ensures Occurs(AddOne(index, name, h), n, k) == Occurs(index, n, k) + if n == name && k == h then 1 else 0
  {
    assert multiset(Lookup(index, name) + [h]) == multiset(Lookup(index, name)) + multiset{h};
  }

  lemma DropOneCounts(index: Index, name: string, h: string, n: string, k: string)
    requires NoEmptyLists(index)
    ensures NoEmptyLists(DropOne(index, name, h))
    ensures Occurs(DropOne(index, name, h), n, k) == if n == name && k == h then 0 else Occurs(index, n, k)
  {
    WithoutCounts(Lookup(index, name), h);
    assert Lookup(DropOne(index, name, h), name) == Without(Lookup(index, name), h);
  }

  lemma {:induction false} AddCounts(index: Index, names: seq<string>, h: string, n: string, k: string)
    requires NoEmptyLists(index)
    ensures NoEmptyLists(IndexAdd(index, names, h))
    ensures Occurs(IndexAdd(index, names, h), n, k) == Occurs(index, n, k) + if k == h then multiset(names)[n] else 0
  {
    if names != [] {
      var m := |names| - 1;
      AddCounts(index, names[..m], h, n, k);
      AddOneCounts(IndexAdd(index, names[..m], h), names[m], h, n, k);
      assert names == names[..m] + [names[m]];
    }
  }

  lemma {:induction false} DropCounts(index: Index, names: seq<string>, h: string, n: string, k: string)
    requires NoEmptyLists(index)
    ensures NoEmptyLists(IndexDrop(index, names, h))
    ensures Occurs(IndexDrop(index, names, h), n, k) == if k == h && n in names then 0 else Occurs(index, n, k)
  {
    if names != [] {
      var m := |names| - 1;
      DropCounts(index, names[..m], h, n, k);
      DropOneCounts(IndexDrop(index, names[..m], h), names[m], h, n, k);
      assert names == names[..m] + [names[m]];
    }
  }

  /** Removing a certificate keeps the agreement exactly when the given copy names every name of the
      cached certificate with its hash. */
  lemma RemoveKeepsAgreement(s: State, cert: Certificate)
    requires Agree(s)
    ensures Agree(RemoveCert(s, cert)) <==>
            (cert.hash in s.certs ==> forall n :: n in s.certs[cert.hash].names ==> n in cert.names)
  {
    var r := RemoveCert(s, cert);
    DropCounts(s.index, cert.names, cert.hash, "", "");
    if cert.hash in s.certs && exists n :: n in s.certs[cert.hash].names && n !in cert.names {
      var n :| n in s.certs[cert.hash].names && n !in cert.names;
      DropCounts(s.index, cert.names, cert.hash, n, cert.hash);
      assert Occurs(s.index, n, cert.hash) == Expected(s.certs, n, cert.hash) > 0;
      assert Expected(r.certs, n, cert.hash) == 0;
    } else {
      forall n, h ensures Occurs(r.index, n, h) == Expected(r.certs, n, h) {
        DropCounts(s.index, cert.names, cert.hash, n, h);
        assert Occurs(s.index, n, h) == Expected(s.certs, n, h);
      }
    }
  }

  /** Removing an unknown hash removes the key "": that is harmless exactly when nothing with a name
      is cached under the empty hash. */
  lemma RemoveUnknownHash(s: State, h: string)
    requires Agree(s) && h !in s.certs
    ensures Agree(RemoveHashes(s, [h])) <==> ("" in s.certs ==> s.certs[""].names == [])
  {
    assert [h][..0] == [];
    assert RemoveHashes(s, []) == s;
    RemoveKeepsAgreement(s, ZERO);
    if "" in s.certs && s.certs[""].names != [] {
      assert s.certs[""].names[0] in s.certs[""].names;
    }
  }

  /** Writing a copy of a certificate back without looking whether it is still cached keeps the
      agreement exactly when the names indexed for its hash are those of the copy. */
  lemma UnguardedWrite(s: State, cert: Certificate)
    requires Agree(s)
    ensures Agree(s.(certs := s.certs[cert.hash := cert])) <==>
            multiset(cert.names) == if cert.hash in s.certs then multiset(s.certs[cert.hash].names) else multiset{}
  {
    var r := s.(certs := s.certs[cert.hash := cert]);
    var before := if cert.hash in s.certs then multiset(s.certs[cert.hash].names) else multiset{};
    if multiset(cert.names) == before {
      forall n, h ensures Occurs(r.index, n, h) == Expected(r.certs, n, h) {
        assert Occurs(s.index, n, h) == Expected(s.certs, n, h);
      }
    } else {
      var n :| multiset(cert.names)[n] != before[n];
      assert Occurs(s.index, n, cert.hash) == Expected(s.certs, n, cert.hash) == before[n];
      assert Occurs(r.index, n, cert.hash) != Expected(r.certs, n, cert.hash);
    }
  }

  /** So the write breaks a cache from which the certificate was removed meanwhile. */
  lemma UnguardedWriteBreaks(cert: Certificate, capacity: nat)
    requires cert.hash != "" && cert.names != []
    ensures var (chain, ops) := (_ => cert.names, [Cache(cert, ""), Remove([cert.hash])]);
            && Runs(chain, capacity, EMPTY, ops)
            && var s := After(chain, capacity, EMPTY, ops);
            Agree(s) && !Agree(s.(certs := s.certs[cert.hash := cert]))
  {
    var (chain, ops) := (_ => cert.names, [Cache(cert, ""), Remove([cert.hash])]);
    var one := Step(capacity, EMPTY, ops[0]);
    StepKeepsInv(chain, capacity, EMPTY, ops[0]);
    RemoveHashesFacts(chain, one, [cert.hash]);
    var s := Step(capacity, one, ops[1]);
    assert ops[1..] == [ops[1]] && ops[1..][1..] == [];
    assert After(chain, capacity, one, ops[1..]) == s;
    assert cert.hash !in s.certs;
    assert cert.names[0] in multiset(cert.names);
    UnguardedWrite(s, cert);
  }

  lemma AddKeepsAgreement(s: State, cert: Certificate)
    requires Agree(s) && cert.hash !in s.certs
    ensures Agree(State(s.certs[cert.hash := cert], IndexAdd(s.index, cert.names, cert.hash)))
  {
    var r := State(s.certs[cert.hash := cert], IndexAdd(s.index, cert.names, cert.hash));
    AddCounts(s.index, cert.names, cert.hash, "", "");
    forall n, h ensures Occurs(r.index, n, h) == Expected(r.certs, n, h) {
      AddCounts(s.index, cert.names, cert.hash, n, h);
      assert Occurs(s.index, n, h) == Expected(s.certs, n, h);
    }
  }

  lemma InsertKeepsAgreement(s: State, cert: Certificate, capacity: nat, victim: string)
    requires Agree(s) && (cert.hash in s.certs || CanEvict(s, capacity, victim))
    ensures Agree(Insert(s, cert, capacity, victim))
  {
    if cert.hash in s.certs {
      UnguardedWrite(s, s.certs[cert.hash].(tags := AddTags(s.certs[cert.hash].tags, cert.tags)));
    } else if AtCapacity(s, capacity) {
      RemoveKeepsAgreement(s, s.certs[victim]);
      AddKeepsAgreement(RemoveCert(s, s.certs[victim]), cert);
    } else {
      AddKeepsAgreement(s, cert);
    }
  }

  // ---------------------------------------------------------------- every run

  /** Equal chain hashes imply equal names: `chain` gives the names of the chain with a hash. */
  ghost predicate Genuine(chain: string -> seq<string>, cert: Certificate) {
    cert.hash != "" && cert.names == chain(cert.hash)
  }

  ghost predicate Inv(chain: string -> seq<string>, s: State) {
    Agree(s) && forall h :: h in s.certs ==> Genuine(chain, s.certs[h])
  }

  datatype Op =
    | Cache(cert: Certificate, victim: string)
    | Evict(cert: Certificate)
    | Replace(old_: Certificate, new_: Certificate, victim: string)
    | Remove(hashes: seq<string>)
    | UpdateStaple(hash: string, staple: int)
    | UpdateARI(hash: string, ari: int)
    | HandshakeStaple(cert: Certificate)

  /** Operations are given genuine certificates; the handshake write happens while its hash is cached. */
  ghost predicate Enabled(chain: string -> seq<string>, capacity: nat, s: State, op: Op) {
    match op
    case Cache(c, v) => Genuine(chain, c) && (c.hash in s.certs || CanEvict(s, capacity, v))
    case Evict(c) => Genuine(chain, c)
    case Replace(o, c, v) =>
      && Genuine(chain, o) && Genuine(chain, c)
      && (c.hash in RemoveCert(s, o).certs || CanEvict(RemoveCert(s, o), capacity, v))
    case HandshakeStaple(c) => Genuine(chain, c) && c.hash in s.certs
    case _ => true
  }

  function Step(capacity: nat, s: State, op: Op): State
    requires op.Cache? ==> op.cert.hash in s.certs || CanEvict(s, capacity, op.victim)
    requires op.Replace? ==> op.new_.hash in RemoveCert(s, op.old_).certs || CanEvict(RemoveCert(s, op.old_), capacity, op.victim)
  {
    match op
    case Cache(c, v) => Insert(s, c, capacity, v)
    case Evict(c) => RemoveCert(s, c)
    case Replace(o, c, v) => Insert(RemoveCert(s, o), c, capacity, v)
    case Remove(hashes) => RemoveHashes(s, hashes)
    case UpdateStaple(h, v) => if h in s.certs then s.(certs := s.certs[h := s.certs[h].(staple := v)]) else s
    case UpdateARI(h, v) => if h in s.certs then s.(certs := s.certs[h := s.certs[h].(ari := v)]) else s
    case HandshakeStaple(c) => s.(certs := s.certs[c.hash := c])
  }

  lemma {:induction false} RemoveHashesFacts(chain: string -> seq<string>, s: State, hashes: seq<string>)
    requires Inv(chain, s)
    ensures Inv(chain, RemoveHashes(s, hashes))
    ensures RemoveHashes(s, hashes).certs == map h | h in s.certs && h !in hashes :: s.certs[h]
  {
    if hashes != [] {
      var n := |hashes| - 1;
      RemoveHashesFacts(chain, s, hashes[..n]);
      assert hashes == hashes[..n] + [hashes[n]];
      var rest := RemoveHashes(s, hashes[..n]);
      RemoveKeepsAgreement(rest, if hashes[n] in rest.certs then rest.certs[hashes[n]] else ZERO);
    }
  }

  lemma StepKeepsInv(chain: string -> seq<string>, capacity: nat, s: State, op: Op)
    requires Inv(chain, s) && Enabled(chain, capacity, s, op)
    ensures Inv(chain, Step(capacity, s, op))
  {
    if op.Cache? {
      InsertKeepsAgreement(s, op.cert, capacity, op.victim);
    } else if op.Evict? {
      RemoveKeepsAgreement(s, op.cert);
    } else if op.Replace? {
      RemoveKeepsAgreement(s, op.old_);
      InsertKeepsAgreement(RemoveCert(s, op.old_), op.new_, capacity, op.victim);
    } else if op.Remove? {
      RemoveHashesFacts(chain, s, op.hashes);
    } else {
      WriteKeepsInv(chain, capacity, s, op);
    }
  }

  lemma WriteKeepsInv(chain: string -> seq<string>, capacity: nat, s: State, op: Op)
    requires Inv(chain, s) && Enabled(chain, capacity, s, op)
    requires op.UpdateStaple? || op.UpdateARI? || op.HandshakeStaple?
    ensures Inv(chain, Step(capacity, s, op))
  {
    if op.UpdateStaple? && op.hash in s.certs {
      UnguardedWrite(s, s.certs[op.hash].(staple := op.staple));
    } else if op.UpdateARI? && op.hash in s.certs {
      UnguardedWrite(s, s.certs[op.hash].(ari := op.ari));
    } else if op.HandshakeStaple? {
      UnguardedWrite(s, op.cert);
    }
  }

  function Max(a: nat, b: nat): nat { if a >= b then a else b }

  lemma UpdateSize(m: map<string, Certificate>, h: string, c: Certificate)
    ensures |m[h := c]| == |m| + if h in m then 0 else 1
  {
    assert m[h := c].Keys == m.Keys + {h};
    assert h !in m ==> |m.Keys + {h}| == |m.Keys| + 1;
    assert h in m ==> m.Keys + {h} == m.Keys;
  }

  lemma RemoveShrinks(s: State, cert: Certificate)
    ensures |RemoveCert(s, cert).certs| == |s.certs| - if cert.hash in s.certs then 1 else 0
  {
    assert (s.certs - {cert.hash}).Keys == s.certs.Keys - {cert.hash};
  }

  lemma InsertSize(s: State, cert: Certificate, capacity: nat, victim: string)
    requires Agree(s) && (cert.hash in s.certs || CanEvict(s, capacity, victim))
    ensures var n := |Insert(s, cert, capacity, victim).certs|;
            n == if cert.hash in s.certs || AtCapacity(s, capacity) then |s.certs| else |s.certs| + 1
  {
    if cert.hash in s.certs {
      UpdateSize(s.certs, cert.hash, s.certs[cert.hash].(tags := AddTags(s.certs[cert.hash].tags, cert.tags)));
    } else if AtCapacity(s, capacity) {
      var room := RemoveCert(s, s.certs[victim]);
      RemoveShrinks(s, s.certs[victim]);
      UpdateSize(room.certs, cert.hash, cert);
    } else {
      UpdateSize(s.certs, cert.hash, cert);
    }
  }

  lemma ReplaceSize(s: State, o: Certificate, c: Certificate, capacity: nat, victim: string)
    requires Agree(s) && Agree(RemoveCert(s, o))
    requires c.hash in RemoveCert(s, o).certs || CanEvict(RemoveCert(s, o), capacity, victim)
    ensures var n := |Insert(RemoveCert(s, o), c, capacity, victim).certs|;
            && (capacity > 0 ==> n <= Max(|s.certs|, capacity))
            && (o.hash in s.certs ==> n <= |s.certs|)
  {
    RemoveShrinks(s, o);
    InsertSize(RemoveCert(s, o), c, capacity, victim);
  }

  /** With a capacity, no operation takes the cache past it (or past its previous size), and replacing
      a certificate that is present never grows the cache. */
  lemma StepKeepsCapacity(chain: string -> seq<string>, capacity: nat, s: State, op: Op)
    requires Inv(chain, s) && Enabled(chain, capacity, s, op)
    ensures capacity > 0 ==> |Step(capacity, s, op).certs| <= Max(|s.certs|, capacity)
    ensures op.Replace? && op.old_.hash in s.certs ==> |Step(capacity, s, op).certs| <= |s.certs|
  {
    if op.Cache? {
      InsertSize(s, op.cert, capacity, op.victim);
    } else if op.Evict? {
      RemoveShrinks(s, op.cert);
    } else if op.Replace? {
      RemoveKeepsAgreement(s, op.old_);
      ReplaceSize(s, op.old_, op.new_, capacity, op.victim);
    } else if op.Remove? {
      RemoveHashesFacts(chain, s, op.hashes);
      SubsetSize(RemoveHashes(s, op.hashes).certs.Keys, s.certs.Keys);
    } else {
      WriteSize(capacity, s, op);
    }
  }

  lemma WriteSize(capacity: nat, s: State, op: Op)
    requires op.UpdateStaple? || op.UpdateARI? || (op.HandshakeStaple? && op.cert.hash in s.certs)
    ensures |Step(capacity, s, op).certs| == |s.certs|
  {
    if op.UpdateStaple? && op.hash in s.certs {
      UpdateSize(s.certs, op.hash, s.certs[op.hash].(staple := op.staple));
    } else if op.UpdateARI? && op.hash in s.certs {
      UpdateSize(s.certs, op.hash, s.certs[op.hash].(ari := op.ari));
    } else if op.HandshakeStaple? {
      UpdateSize(s.certs, op.cert.hash, op.cert);
    }
  }

  lemma SubsetSize(a: set<string>, b: set<string>)
    requires a <= b
    ensures |a| <= |b|
  {
    assert b == a + (b - a);
  }

  ghost predicate Runs(chain: string -> seq<string>, capacity: nat, s: State, ops: seq<Op>)
    decreases |ops|
  {
    ops == [] || (Enabled(chain, capacity, s, ops[0]) && Runs(chain, capacity, Step(capacity, s, ops[0]), ops[1..]))
  }

  ghost function After(chain: string -> seq<string>, capacity: nat, s: State, ops: seq<Op>): State
    requires Runs(chain, capacity, s, ops)
    decreases |ops|
  {
    if ops == [] then s else After(chain, capacity, Step(capacity, s, ops[0]), ops[1..])
  }

  /** Cache and index agree, and the capacity is respected, in every run of the cache's operations. */
  lemma {:induction false} EveryRunAgrees(chain: string -> seq<string>, capacity: nat, s: State, ops: seq<Op>)
    requires Inv(chain, s) && Runs(chain, capacity, s, ops)
    ensures var e := After(chain, capacity, s, ops);
            Inv(chain, e) && (capacity > 0 ==> |e.certs| <= Max(|s.certs|, capacity))
    decreases |ops|
  {
    if ops != [] {
      StepKeepsInv(chain, capacity, s, ops[0]);
      StepKeepsCapacity(chain, capacity, s, ops[0]);
      EveryRunAgrees(chain, capacity, Step(capacity, s, ops[0]), ops[1..]);
    }
  }

  /** So they do in every run that starts with a new cache, which then never exceeds its capacity. */
  lemma EveryRunFromEmpty(chain: string -> seq<string>, capacity: nat, ops: seq<Op>)
    requires Runs(chain, capacity, EMPTY, ops)
    ensures var e := After(chain, capacity, EMPTY, ops); Agree(e) && (capacity > 0 ==> |e.certs| <= capacity)
  {
    EveryRunAgrees(chain, capacity, EMPTY, ops);
  }

  // ---------------------------------------------------------------- lookups agree with a scan

  lemma LookupIsScan(s: State, name: string, h: string)
    requires Agree(s)
    ensures h in Lookup(s.index, name) <==> h in s.certs && name in s.certs[h].names
  {
    assert Occurs(s.index, name, h) == Expected(s.certs, name, h);
    assert h in Lookup(s.index, name) <==> h in multiset(Lookup(s.index, name));
    assert h in s.certs ==> (name in s.certs[h].names <==> name in multiset(s.certs[h].names));
  }

  /** Some cached certificate `c` has one of the first `upTo` lookup candidates of `name` as a name. */
  ghost predicate FoundBy(c: Certificate, name: string, upTo: nat)
    requires upTo <= |Split(name, '.')| + 1
  {
    exists k: nat :: k < upTo && Candidate(name, k) in c.names
  }

  lemma FoundByNext(c: Certificate, name: string, k: nat)
    requires k <= |Split(name, '.')|
    ensures FoundBy(c, name, k + 1) <==> FoundBy(c, name, k) || Candidate(name, k) in c.names
  {}

  predicate ManagedFor(c: Certificate, subjects: seq<(string, string)>) {
    c.managed && exists i :: 0 <= i < |subjects| && subjects[i].0 in c.names
                             && (subjects[i].1 == "" || c.issuerKey == subjects[i].1)
  }

  // ---------------------------------------------------------------- what the operations do

  /** `n` times the hash `h`. */
  function Times(h: string, n: nat): seq<string> {
    seq(n, _ => h)
  }

  lemma {:induction false} WithoutConcat(a: seq<string>, b: seq<string>, h: string)
    ensures Without(a + b, h) == Without(a, h) + Without(b, h)
  {
    if a == [] {
      assert a + b == b;
    } else {
      assert (a + b)[1..] == a[1..] + b;
      WithoutConcat(a[1..], b, h);
    }
  }

  lemma {:induction false} WithoutAbsent(list: seq<string>, h: string)
    requires h !in list
    ensures Without(list, h) == list
  {
    if list != [] {
      WithoutAbsent(list[1..], h);
      assert list == [list[0]] + list[1..];
    }
  }

  lemma {:induction false} AddedLists(index: Index, names: seq<string>, h: string, n: string)
    ensures Lookup(IndexAdd(index, names, h), n) == Lookup(index, n) + Times(h, multiset(names)[n])
  {
    if names != [] {
      var m := |names| - 1;
      AddedLists(index, names[..m], h, n);
      assert names == names[..m] + [names[m]];
      var k := multiset(names[..m])[n];
      assert Times(h, k) + [h] == Times(h, k + 1);
    }
  }

  lemma {:induction false} DroppedLists(index: Index, names: seq<string>, h: string, n: string)
    ensures Lookup(IndexDrop(index, names, h), n) == if n in names then Without(Lookup(index, n), h) else Lookup(index, n)
  {
    if names != [] {
      var m := |names| - 1;
      DroppedLists(index, names[..m], h, n);
      assert names == names[..m] + [names[m]];
      var list := Lookup(IndexDrop(index, names[..m], h), n);
      if n == names[m] && n in names[..m] {
        WithoutCounts(Lookup(index, n), h);
        assert h !in multiset(list) && h !in list;
        WithoutAbsent(list, h);
      }
    }
  }

  /** Removing a certificate takes its hash out of every list and leaves the rest in order. */
  lemma RemovedLists(s: State, h: string, n: string)
    requires Agree(s) && h in s.certs
    ensures RemoveCert(s, s.certs[h]).certs == s.certs - {h}
    ensures Lookup(RemoveCert(s, s.certs[h]).index, n) == Without(Lookup(s.index, n), h)
  {
    DroppedLists(s.index, s.certs[h].names, h, n);
    LookupIsScan(s, n, h);
    if n !in s.certs[h].names {
      WithoutAbsent(Lookup(s.index, n), h);
    }
  }

  /** A new certificate is stored and put at the end of the list of each of its names; at capacity the
      victim goes, and nothing else does. */
  lemma InsertStores(s: State, cert: Certificate, capacity: nat, victim: string, n: string)
    requires Agree(s) && cert.hash !in s.certs && CanEvict(s, capacity, victim)
    ensures var (e, full) := (Insert(s, cert, capacity, victim), capacity > 0 && |s.certs| >= capacity);
            && e.certs == (if full then s.certs - {victim} else s.certs)[cert.hash := cert]
            && Lookup(e.index, n) == (if full then Without(Lookup(s.index, n), victim) else Lookup(s.index, n))
                                     + Times(cert.hash, multiset(cert.names)[n])
  {
    if AtCapacity(s, capacity) {
      RemovedLists(s, victim, n);
      AddedLists(RemoveCert(s, s.certs[victim]).index, cert.names, cert.hash, n);
    } else {
      AddedLists(s.index, cert.names, cert.hash, n);
    }
  }

  /** A certificate that is cached already only gains tags. */
  lemma InsertMerges(s: State, cert: Certificate, capacity: nat, victim: string)
    requires cert.hash in s.certs
    ensures var e := Insert(s, cert, capacity, victim);
            && e.index == s.index && e.certs.Keys == s.certs.Keys
            && (forall h :: h in s.certs && h != cert.hash ==> e.certs[h] == s.certs[h])
            && e.certs[cert.hash] == s.certs[cert.hash].(tags := e.certs[cert.hash].tags)
            && (forall t :: t in e.certs[cert.hash].tags <==> t in s.certs[cert.hash].tags || t in cert.tags)
  {
    AddTagsFacts(s.certs[cert.hash].tags, cert.tags);
  }

  /** Right after it is cached, in any run, a certificate is found by each of its names; and if it was not
      cached before, it is found as given. */
  lemma CachedIsFound(chain: string -> seq<string>, capacity: nat, s: State, op: Op, n: string)
    requires Inv(chain, s) && Enabled(chain, capacity, s, op) && (op.Cache? || op.Replace?)
    ensures var (e, c) := (Step(capacity, s, op), if op.Cache? then op.cert else op.new_);
            && c.hash in e.certs && e.certs[c.hash].names == c.names
            && (c.hash !in s.certs ==> e.certs[c.hash] == c)
            && (n in c.names ==> c.hash in Lookup(e.index, n))
            && (op.Replace? && op.old_.hash != c.hash ==> op.old_.hash !in e.certs && op.old_.hash !in Lookup(e.index, n))
  {
    StepKeepsInv(chain, capacity, s, op);
    var (e, c) := (Step(capacity, s, op), if op.Cache? then op.cert else op.new_);
    LookupIsScan(e, n, c.hash);
    if op.Replace? {
      LookupIsScan(e, n, op.old_.hash);
    }
  }

  /** A removed certificate is found by no name, and every other one is left alone. */
  lemma EvictedIsGone(chain: string -> seq<string>, s: State, cert: Certificate, n: string)
    requires Inv(chain, s) && Genuine(chain, cert)
    ensures var e := RemoveCert(s, cert);
            && e.certs == s.certs - {cert.hash} && cert.hash !in Lookup(e.index, n)
            && forall h :: h != cert.hash ==> (h in Lookup(e.index, n) <==> h in Lookup(s.index, n))
  {
    RemoveKeepsAgreement(s, cert);
    forall h ensures h in Lookup(RemoveCert(s, cert).index, n) <==> h != cert.hash && h in Lookup(s.index, n) {
      LookupIsScan(RemoveCert(s, cert), n, h);
      LookupIsScan(s, n, h);
    }
  }

  /** Nothing but the certificate cached under `h` may differ. */
  ghost predicate OnlyAt(s: State, e: State, h: string) {
    && e.index == s.index && h in s.certs && e.certs.Keys == s.certs.Keys
    && forall k :: k in s.certs && k != h ==> e.certs[k] == s.certs[k]
  }

  /** The guarded writes change one field of one cached certificate, and nothing if it is not cached; the
      write of a handshake puts its copy in place. */
  lemma WritesChangeOneField(capacity: nat, s: State, h: string, v: int, cert: Certificate)
    ensures var e := Step(capacity, s, UpdateStaple(h, v));
            if h in s.certs then OnlyAt(s, e, h) && e.certs[h].staple == v && e.certs[h].(staple := 0) == s.certs[h].(staple := 0)
            else e == s
    ensures var e := Step(capacity, s, UpdateARI(h, v));
            if h in s.certs then OnlyAt(s, e, h) && e.certs[h].ari == v && e.certs[h].(ari := 0) == s.certs[h].(ari := 0)
            else e == s
    ensures cert.hash in s.certs ==>
              var e := Step(capacity, s, HandshakeStaple(cert)); OnlyAt(s, e, cert.hash) && e.certs[cert.hash] == cert
  {}

  // ---------------------------------------------------------------- the cache in place

  class Cache {
    var certs: map<string, Certificate>
    var index: Index
    var capacity: nat

    function St(): State
      reads this
    {
      State(certs, index)
    }

    constructor (capacity: int)
      ensures St() == EMPTY && this.capacity == if capacity < 0 then 0 else capacity
    {
      certs, index := map[], map[];
      this.capacity := if capacity < 0 then 0 else capacity;
    }

    static method DropHash(list: seq<string>, h: string) returns (keyList: seq<string>)
      ensures keyList == Without(list, h)
    {
      keyList := list;
      var i := 0;
      while i < |keyList|
        invariant 0 <= i <= |keyList|
        invariant Without(list, h) == keyList[..i] + Without(keyList[i..], h)
        decreases |keyList| - i
      {
        if keyList[i] == h {
          assert (keyList[..i] + keyList[i + 1..])[i..] == keyList[i..][1..];
          keyList := keyList[..i] + keyList[i + 1..];
          i := i - 1;
        } else {
          assert keyList[i..][1..] == keyList[i + 1..];
        }
        i := i + 1;
      }
    }

    method RemoveFromIndex(name: string, h: string)
      modifies this`index
      ensures index == DropOne(old(index), name, h)
    {
      var keyList := DropHash(Lookup(index, name), h);
      if |keyList| == 0 {
        index := index - {name};
      } else {
        index := index[name := keyList];
      }
    }

    method RemoveCertificate(cert: Certificate)
      modifies this`certs, this`index
      ensures St() == RemoveCert(old(St()), cert)
    {
      var i := 0;
      while i < |cert.names|
        invariant 0 <= i <= |cert.names|
        invariant certs == old(certs) && index == IndexDrop(old(index), cert.names[..i], cert.hash)
      {
        assert cert.names[..i + 1][..i] == cert.names[..i];
        RemoveFromIndex(cert.names[i], cert.hash);
        i := i + 1;
      }
      assert cert.names[..i] == cert.names;
      certs := certs - {cert.hash};
    }

    method MergeTags(cert: Certificate)
      requires cert.hash in certs
      modifies this`certs
      ensures certs == old(certs)[cert.hash := old(certs)[cert.hash].(tags := AddTags(old(certs)[cert.hash].tags, cert.tags))]
    {
      var existing := certs[cert.hash];
      var i := 0;
      while i < |cert.tags|
        invariant 0 <= i <= |cert.tags| && certs == old(certs)
        invariant existing == certs[cert.hash].(tags := AddTags(certs[cert.hash].tags, cert.tags[..i]))
      {
        assert cert.tags[..i + 1][..i] == cert.tags[..i];
        if cert.tags[i] !in existing.tags {
          existing := existing.(tags := existing.tags + [cert.tags[i]]);
        }
        i := i + 1;
      }
      assert cert.tags[..i] == cert.tags;
      certs := certs[cert.hash := existing];
    }

    method UnsyncedCacheCertificate(cert: Certificate, victim: string)
      requires cert.hash in certs || CanEvict(St(), capacity, victim)
      modifies this`certs, this`index
      ensures St() == Insert(old(St()), cert, capacity, victim)
    {
      if cert.hash in certs {
        MergeTags(cert);
        return;
      }
      if AtCapacity(St(), capacity) {
        RemoveCertificate(certs[victim]);
      }
      ghost var room := St();
      certs := certs[cert.hash := cert];
      var i := 0;
      while i < |cert.names|
        invariant 0 <= i <= |cert.names|
        invariant certs == room.certs[cert.hash := cert]
        invariant index == IndexAdd(room.index, cert.names[..i], cert.hash)
      {
        assert cert.names[..i + 1][..i] == cert.names[..i];
        index := index[cert.names[i] := Lookup(index, cert.names[i]) + [cert.hash]];
        i := i + 1;
      }
      assert cert.names[..i] == cert.names;
    }

    method ReplaceCertificate(oldCert: Certificate, newCert: Certificate, victim: string)
      requires newCert.hash in RemoveCert(St(), oldCert).certs || CanEvict(RemoveCert(St(), oldCert), capacity, victim)
      modifies this`certs, this`index
      ensures St() == Step(capacity, old(St()), Replace(oldCert, newCert, victim))
    {
      RemoveCertificate(oldCert);
      UnsyncedCacheCertificate(newCert, victim);
    }

    method RemoveAll(hashes: seq<string>)
      modifies this`certs, this`index
      ensures St() == RemoveHashes(old(St()), hashes)
    {
      var i := 0;
      while i < |hashes|
        invariant 0 <= i <= |hashes|
        invariant St() == RemoveHashes(old(St()), hashes[..i])
      {
        assert hashes[..i + 1][..i] == hashes[..i];
        RemoveCertificate(if hashes[i] in certs then certs[hashes[i]] else ZERO);
        i := i + 1;
      }
      assert hashes[..i] == hashes;
    }

    /** The certificates with exactly this subject, as often and in the order the index lists them. */
    method GetAllMatchingCerts(subject: string) returns (r: seq<Certificate>)
      requires Agree(St())
      ensures |r| == |Lookup(index, subject)|
      ensures forall i :: 0 <= i < |r| ==> Lookup(index, subject)[i] in certs && r[i] == certs[Lookup(index, subject)[i]]
      ensures forall c :: c in r <==> (c.hash in certs && certs[c.hash] == c && subject in c.names)
    {
      var keys := Lookup(index, subject);
      r := [];
      while |r| < |keys|
        invariant |r| <= |keys|
        invariant forall i :: 0 <= i < |r| ==> keys[i] in certs && r[i] == certs[keys[i]]
        decreases |keys| - |r|
      {
        LookupIsScan(St(), subject, keys[|r|]);
        r := r + [certs[keys[|r|]]];
      }
      forall c ensures c in r <==> (c.hash in certs && certs[c.hash] == c && subject in c.names) {
        LookupIsScan(St(), subject, c.hash);
        if c in r {
          var i :| 0 <= i < |r| && r[i] == c;
          LookupIsScan(St(), subject, keys[i]);
        } else if c.hash in keys {
          var i :| 0 <= i < |keys| && keys[i] == c.hash;
          assert r[i] in r;
        }
      }
    }

    /** Exact matches, then wildcard matches with ever more labels starred: together exactly the cached
        certificates that have a lookup candidate of the name. */
    method AllMatchingCertificates(name: string) returns (r: seq<Certificate>)
      requires Agree(St())
      ensures forall c :: c in r <==>
                c.hash in certs && certs[c.hash] == c && FoundBy(c, name, |Split(name, '.')| + 1)
    {
      r := GetAllMatchingCerts(name);
      CandidateZero(name);
      forall c ensures FoundBy(c, name, 1) <==> name in c.names {
        FoundByNext(c, name, 0);
      }
      var labels := Split(name, '.');
      ghost var original := labels;
      var i := 0;
      while i < |labels|
        invariant 0 <= i <= |labels| == |original|
        invariant forall k :: 0 <= k < |labels| ==> labels[k] == if k < i then STAR else original[k]
        invariant forall c :: c in r <==> c.hash in certs && certs[c.hash] == c && FoundBy(c, name, i + 1)
      {
        labels := labels[i := STAR];
        var candidate := Join(labels, '.');
        IsCandidate(name, labels, i + 1);
        var more := GetAllMatchingCerts(candidate);
        forall c ensures FoundBy(c, name, i + 2) <==> FoundBy(c, name, i + 1) || candidate in c.names {
          FoundByNext(c, name, i + 1);
        }
        r := r + more;
        i := i + 1;
      }
    }

    /** Removes exactly the managed certificates for the given subjects (and issuers, where given). */
    method RemoveManaged(subjects: seq<(string, string)>, ghost chain: string -> seq<string>)
      requires Inv(chain, St())
      modifies this`certs, this`index
      ensures Inv(chain, St())
      ensures certs == map h | h in old(certs) && !ManagedFor(old(certs)[h], subjects) :: old(certs)[h]
      ensures forall h :: h in old(certs) ==>
                (h !in certs <==> old(certs)[h].managed && exists i ::
                   && 0 <= i < |subjects| && subjects[i].0 in old(certs)[h].names
                   && (subjects[i].1 == "" || subjects[i].1 == old(certs)[h].issuerKey))
    {
      var deleteQueue: seq<string> := [];
      var i := 0;
      while i < |subjects|
        invariant 0 <= i <= |subjects| && St() == old(St())
        invariant forall h :: h in deleteQueue <==> h in certs && ManagedFor(certs[h], subjects[..i])
      {
        var matching := GetAllMatchingCerts(subjects[i].0);
        var queue := SelectManaged(matching, subjects[i].1);
        deleteQueue := deleteQueue + queue;
        assert subjects[..i + 1] == subjects[..i] + [subjects[i]];
        forall h ensures h in deleteQueue <==> h in certs && ManagedFor(certs[h], subjects[..i + 1]) {
          assert h in certs ==> (ManagedFor(certs[h], subjects[..i + 1]) <==>
                                 ManagedFor(certs[h], subjects[..i]) || ManagedFor(certs[h], [subjects[i]]));
          assert h in queue <==> h in certs && ManagedFor(certs[h], [subjects[i]]);
        }
        i := i + 1;
      }
      assert subjects[..i] == subjects;
      RemoveHashesFacts(chain, St(), deleteQueue);
      RemoveAll(deleteQueue);
    }

    static method SelectManaged(matching: seq<Certificate>, issuerKey: string) returns (queue: seq<string>)
      ensures forall h :: h in queue <==>
                exists c :: c in matching && c.hash == h && c.managed && (issuerKey == "" || c.issuerKey == issuerKey)
    {
      queue := [];
      var i := 0;
      while i < |matching|
        invariant 0 <= i <= |matching|
        invariant forall h :: h in queue <==>
                    exists c :: c in matching[..i] && c.hash == h && c.managed && (issuerKey == "" || c.issuerKey == issuerKey)
      {
        assert matching[..i + 1] == matching[..i] + [matching[i]];
        var cert := matching[i];
        i := i + 1;
        if !cert.managed {
          continue;
        }
        if issuerKey == "" || cert.issuerKey == issuerKey {
          queue := queue + [cert.hash];
        }
      }
      assert matching[..i] == matching;
    }

    method UpdateStapleIn(h: string, staple: int)
      modifies this`certs
      ensures St() == Step(capacity, old(St()), UpdateStaple(h, staple))
    {
      if h in certs {
        certs := certs[h := certs[h].(staple := staple)];
      }
    }

    method UpdateARIIn(h: string, ari: int)
      modifies this`certs
      ensures St() == Step(capacity, old(St()), UpdateARI(h, ari))
    {
      if h in certs {
        certs := certs[h := certs[h].(ari := ari)];
      }
    }
  }

  /** The fast lookup refines a scan of the cache with the matching rule. */
  lemma LookupRefinesScan(c: Certificate, name: string)
    requires IsLower(name) && "" !in Split(name, '.')
    requires forall n :: n in c.names ==> IsLower(n)
    ensures FoundBy(c, name, |Split(name, '.')| + 1) <==> exists n :: n in c.names && Matches(name, n)
  {
    if FoundBy(c, name, |Split(name, '.')| + 1) {
      var k: nat :| k < |Split(name, '.')| + 1 && Candidate(name, k) in c.names;
      CandidatesAreMatches(name, Candidate(name, k));
      assert Matches(name, Candidate(name, k));
    }
    if n :| n in c.names && Matches(name, n) {
      CandidatesAreMatches(name, n);
      var k: nat :| k <= |Split(name, '.')| && n == Candidate(name, k);
      assert FoundBy(c, name, |Split(name, '.')| + 1);
    }
  }
}
