/** Grouped stores, and saving and loading certificate resources. */
module Storage {
  import opened Wrappers
  import opened StorageKeys

  type Bytes = seq<int>

  /** A stored value: raw bytes, or the JSON encoding of a resource's metadata. */
  datatype Value = Raw(bytes: Bytes) | Json(sans: seq<string>, issuerData: Bytes)

  type Data = map<string, Value>

  datatype KeyValue = KeyValue(key: string, value: Value)

  datatype Resource = Resource(sans: seq<string>, certificate: Value, privateKey: Value, issuerData: Bytes, issuerKey: string)

  datatype Loaded = NotExist | Malformed | Found(res: Resource)

  function PutAll(d: Data, all: seq<KeyValue>): Data {
    if all == [] then d else PutAll(d, all[..|all| - 1])[all[|all| - 1].key := all[|all| - 1].value]
  }

  function KeysOf(all: seq<KeyValue>): set<string> {
    set i | 0 <= i < |all| :: all[i].key
  }

  lemma KeysOfCons(kv: KeyValue, rest: seq<KeyValue>)
    ensures KeysOf([kv] + rest) == KeysOf(rest) + {kv.key}
  {
    var all := [kv] + rest;
    assert all[0] == kv && forall i :: 0 <= i < |rest| ==> rest[i] == all[i + 1];
  }

  lemma {:induction false} PutAllFacts(d: Data, all: seq<KeyValue>, k: string)
    ensures k in PutAll(d, all) <==> k in d || k in KeysOf(all)
    ensures k !in KeysOf(all) && k in d ==> PutAll(d, all)[k] == d[k]
  {
    if all != [] {
      PutAllFacts(d, all[..|all| - 1], k);
      assert KeysOf(all) == KeysOf(all[..|all| - 1]) + {all[|all| - 1].key};
    }
  }

  /** A key stored more than once by a group has the last of its values. */
  lemma {:induction false} LastValueWins(d: Data, all: seq<KeyValue>, i: nat)
    requires i < |all| && forall j :: i < j < |all| ==> all[j].key != all[i].key
    ensures all[i].key in PutAll(d, all) && PutAll(d, all)[all[i].key] == all[i].value
  {
    var n := |all| - 1;
    if i < n {
      LastValueWins(d, all[..n], i);
    }
  }

  /** Storing part of a group and deleting those keys again restores the data exactly when the keys
      were absent: overwritten values are lost. */
  lemma UndoRestores(d: Data, all: seq<KeyValue>)
    ensures PutAll(d, all) - KeysOf(all) == d - KeysOf(all)
    ensures d - KeysOf(all) == d <==> KeysOf(all) !! d.Keys
  {
    forall k ensures k in PutAll(d, all) <==> k in d || k in KeysOf(all) {
      PutAllFacts(d, all, k);
    }
    forall k | k in d && k !in KeysOf(all) ensures PutAll(d, all)[k] == d[k] {
      PutAllFacts(d, all, k);
    }
    assert (d - KeysOf(all)).Keys == d.Keys - KeysOf(all);
  }

  // ---------------------------------------------------------------- resources as values

  function Assets(issuerKey: string, namesKey: string, res: Resource): seq<KeyValue> {
    [KeyValue(SiteKey(issuerKey, namesKey, Key), res.privateKey),
     KeyValue(SiteKey(issuerKey, namesKey, Crt), res.certificate),
     KeyValue(SiteKey(issuerKey, namesKey, Meta), Json(res.sans, res.issuerData))]
  }

  function Saved(d: Data, issuerKey: string, namesKey: string, res: Resource): Data {
    PutAll(d, Assets(issuerKey, namesKey, res))
  }

  function LoadFrom(d: Data, issuerKey: string, name: string): Loaded {
    if !HasCertResources(d, issuerKey, name) then NotExist
    else match d[SiteKey(issuerKey, name, Meta)]
      case Raw(_) => Malformed
      case Json(sans, issuerData) =>
        Found(Resource(sans, d[SiteKey(issuerKey, name, Crt)], d[SiteKey(issuerKey, name, Key)], issuerData, issuerKey))
  }

  predicate HasCertResources(d: Data, issuerKey: string, name: string) {
    SiteKey(issuerKey, name, Crt) in d && SiteKey(issuerKey, name, Key) in d && SiteKey(issuerKey, name, Meta) in d
  }

  predicate HasNoAssets(d: Data, issuerKey: string, name: string) {
    SiteKey(issuerKey, name, Crt) !in d && SiteKey(issuerKey, name, Key) !in d && SiteKey(issuerKey, name, Meta) !in d
  }

  predicate Undecodable(l: Loaded, parse: Value -> Option<int>) {
    l.Malformed? || (l.Found? && parse(l.res.certificate).None?)
  }

  // ---------------------------------------------------------------- the newest of several

  /** What each issuer has for a name. */
  function LoadsOf(d: Data, issuers: seq<string>, name: string): seq<Loaded> {
    seq(|issuers|, i requires 0 <= i < |issuers| => LoadFrom(d, issuers[i], name))
  }

  function StartOf(l: Loaded, parse: Value -> Option<int>): int
    requires l.Found?
  {
    match parse(l.res.certificate)
    case None => 0
    case Some(t) => t
  }

  /** Issuer `k` has a resource, and no issuer has one that is valid from later. */
  ghost predicate IsNewest(loads: seq<Loaded>, parse: Value -> Option<int>, k: int) {
    && 0 <= k < |loads| && loads[k].Found?
    && forall j :: 0 <= j < |loads| && loads[j].Found? ==> StartOf(loads[j], parse) <= StartOf(loads[k], parse)
  }

  /** All that is found can be decoded, and is valid from `start` at the latest. */
  ghost predicate NoneNewer(loads: seq<Loaded>, parse: Value -> Option<int>, start: Option<int>) {
    && start.Some?
    && forall j :: 0 <= j < |loads| && loads[j].Found? ==>
         parse(loads[j].res.certificate).Some? && parse(loads[j].res.certificate).value <= start.value
  }

  /** A resource found and decoded, with the position of its issuer. */
  datatype Decoded = Decoded(issuer: int, start: int, res: Resource)

  ghost predicate IsDecoded(loads: seq<Loaded>, parse: Value -> Option<int>, x: Decoded) {
    && 0 <= x.issuer < |loads| && loads[x.issuer] == Found(x.res)
    && parse(x.res.certificate) == Some(x.start)
  }

  ghost predicate Has(found: seq<Decoded>, issuer: int) {
    exists k :: 0 <= k < |found| && found[k].issuer == issuer
  }

  /** `found` holds what the first `n` issuers have, all of it decoded. */
  ghost predicate Collected(loads: seq<Loaded>, parse: Value -> Option<int>, n: nat, found: seq<Decoded>)
    requires n <= |loads|
  {
    && (forall k :: 0 <= k < |found| ==> IsDecoded(loads, parse, found[k]))
    && (forall j :: 0 <= j < n ==> loads[j] == NotExist || Has(found, j))
  }

  lemma OneMoreCollected(loads: seq<Loaded>, parse: Value -> Option<int>, n: nat, before: seq<Decoded>, found: seq<Decoded>)
    requires n < |loads| && Collected(loads, parse, n, before)
    requires var l := loads[n];
             || (l == NotExist && found == before)
             || (l.Found? && parse(l.res.certificate).Some? && found == before + [Decoded(n, parse(l.res.certificate).value, l.res)])
    ensures Collected(loads, parse, n + 1, found)
  {
    forall j | Has(before, j) ensures Has(found, j) {
      var k :| 0 <= k < |before| && before[k].issuer == j;
      assert found[k].issuer == j;
    }
    if found != before {
      assert found[|before|].issuer == n;
    }
  }

  lemma CollectedIsAll(loads: seq<Loaded>, parse: Value -> Option<int>, found: seq<Decoded>)
    requires Collected(loads, parse, |loads|, found)
    ensures forall j :: 0 <= j < |loads| ==> !Undecodable(loads[j], parse)
    ensures found == [] <==> forall j :: 0 <= j < |loads| ==> loads[j] == NotExist
  {
    forall j | 0 <= j < |loads| && Has(found, j) ensures loads[j].Found? && !Undecodable(loads[j], parse) {
      var m :| 0 <= m < |found| && found[m].issuer == j;
      assert IsDecoded(loads, parse, found[m]);
    }
    if found != [] {
      assert IsDecoded(loads, parse, found[0]);
    }
  }

  lemma NewestCollected(loads: seq<Loaded>, parse: Value -> Option<int>, found: seq<Decoded>, k: nat)
    requires Collected(loads, parse, |loads|, found)
    requires k < |found| && Latest(found, k)
    ensures IsDecoded(loads, parse, found[k]) && IsNewest(loads, parse, found[k].issuer)
    ensures NoneNewer(loads, parse, Some(found[k].start))
  {
    forall j | 0 <= j < |loads| && loads[j].Found?
      ensures parse(loads[j].res.certificate).Some? && parse(loads[j].res.certificate).value <= found[k].start
    {
      assert Has(found, j);
      var m :| 0 <= m < |found| && found[m].issuer == j;
      assert IsDecoded(loads, parse, found[m]);
    }
  }

  predicate Latest(found: seq<Decoded>, k: nat)
    requires k < |found|
  {
    forall j :: 0 <= j < |found| ==> found[j].start <= found[k].start
  }

  lemma {:induction false} SomeNewest(found: seq<Decoded>)
    requires found != []
    ensures exists k :: 0 <= k < |found| && Latest(found, k)
  {
    var n := |found| - 1;
    if n == 0 {
      assert Latest(found, 0);
    } else {
      SomeNewest(found[..n]);
      var k :| 0 <= k < n && Latest(found[..n], k);
      assert forall j :: 0 <= j < n ==> found[j] == found[..n][j];
      assert Latest(found, if found[k].start < found[n].start then n else k);
    }
  }

  // ---------------------------------------------------------------- the store in place

  /** What a grouped store leaves behind: all pairs, or what was there without the keys stored before
      the failure. */
  function Transacted(d: Data, all: seq<KeyValue>, failAt: Option<nat>): Data {
    if Succeeds(all, failAt) then PutAll(d, all) else d - KeysOf(all[..failAt.value])
  }

  /** `failAt` is the first store that fails, if any. */
  predicate Succeeds(all: seq<KeyValue>, failAt: Option<nat>) {
    failAt.None? || failAt.value >= |all|
  }

  lemma UndoOfThree(d: Data, a: KeyValue, b: KeyValue, c: KeyValue, failAt: Option<nat>)
    requires !Succeeds([a, b, c], failAt)
    ensures Transacted(d, [a, b, c], failAt) == d - (if failAt.value > 0 then {a.key} else {}) - (if failAt.value > 1 then {b.key} else {})
    ensures a.key !in d && b.key !in d ==> Transacted(d, [a, b, c], failAt) == d
  {
    var (all, n) := ([a, b, c], failAt.value);
    assert n > 0 ==> all[..n][0] == a;
    assert n > 1 ==> all[..n][1] == b;
    assert KeysOf(all[..n]) == (if n > 0 then {a.key} else {}) + (if n > 1 then {b.key} else {});
  }

  /** A failing group whose first key was stored before loses that key's old value. */
  lemma StoreTxLosesOldValue(d: Data, k: string, v: Value, rest: seq<KeyValue>)
    requires k in d && rest != []
    ensures var all := [KeyValue(k, v)] + rest;
            !Succeeds(all, Some(1)) && Transacted(d, all, Some(1)) == d - {k} != d
  {
    var all := [KeyValue(k, v)] + rest;
    assert all[..1] == [KeyValue(k, v)];
    assert KeysOf([KeyValue(k, v)]) == {k} by {
      assert [KeyValue(k, v)][0].key == k;
    }
    assert k !in d - {k};
  }

  class Store {
    var data: Data

    constructor ()
      ensures data == map[]
    {
      data := map[];
    }

    /** A failed store leaves the data unchanged. */
    method Put(kv: KeyValue, fails: bool) returns (ok: bool)
      modifies this
      ensures ok == !fails
      ensures data == if ok then old(data)[kv.key := kv.value] else old(data)
    {
      if !fails {
        data := data[kv.key := kv.value];
      }
      return !fails;
    }

    /** Deletes the keys of what was stored, last first. */
    method DeleteAll(stored: seq<KeyValue>)
      modifies this
      ensures data == old(data) - KeysOf(stored)
    {
      var j := |stored| - 1;
      while j >= 0
        invariant -1 <= j < |stored|
        invariant data == old(data) - KeysOf(stored[j + 1..])
      {
        assert stored[j..] == [stored[j]] + stored[j + 1..];
        KeysOfCons(stored[j], stored[j + 1..]);
        data := data - {stored[j].key};
        j := j - 1;
      }
      assert stored[j + 1..] == stored;
    }

    /** All or nothing: `failAt` is the first store that fails, if any, and deletes succeed. On success
        all pairs are stored; on failure what was stored is deleted again, which restores the data
        exactly when those keys were absent before. */
    method StoreTx(all: seq<KeyValue>, failAt: Option<nat>) returns (ok: bool)
      modifies this
      ensures ok == Succeeds(all, failAt)
      ensures data == Transacted(old(data), all, failAt)
      ensures !ok ==> (data == old(data) <==> KeysOf(all[..failAt.value]) !! old(data).Keys)
    {
      var i := 0;
      while i < |all|
        invariant 0 <= i <= |all|
        invariant data == PutAll(old(data), all[..i])
        invariant failAt.Some? ==> i <= failAt.value
      {
        var stored := Put(all[i], failAt == Some(i));
        if !stored {
          DeleteAll(all[..i]);
          UndoRestores(old(data), all[..i]);
          return false;
        }
        assert all[..i + 1][..i] == all[..i];
        i := i + 1;
      }
      assert all[..i] == all;
      return true;
    }

    /** Saves key, certificate and metadata, in this order. */
    method SaveCertResource(issuerKey: string, namesKey: string, res: Resource, failAt: Option<nat>) returns (ok: bool)
      modifies this
      ensures ok <==> failAt.None? || failAt.value >= 3
      ensures ok ==> data == Saved(old(data), issuerKey, namesKey, res)
      ensures !ok && HasNoAssets(old(data), issuerKey, namesKey) ==> data == old(data)
      ensures !ok ==> data.Keys <= old(data).Keys && forall k :: k in data ==> data[k] == old(data)[k]
      ensures !ok ==> forall k :: k in old(data) && k !in data ==>
                        (failAt.value > 0 && k == SiteKey(issuerKey, namesKey, Key)) || (failAt.value > 1 && k == SiteKey(issuerKey, namesKey, Crt))
    {
      var all := Assets(issuerKey, namesKey, res);
      ok := StoreTx(all, failAt);
      if !ok {
        UndoOfThree(old(data), all[0], all[1], all[2], failAt);
      }
    }

    method LoadCertResource(issuerKey: string, name: string) returns (r: Loaded)
      ensures r == LoadFrom(data, issuerKey, name)
      ensures r == NotExist <==> !(SiteKey(issuerKey, name, Key) in data && SiteKey(issuerKey, name, Crt) in data && SiteKey(issuerKey, name, Meta) in data)
      ensures r == Malformed ==> data[SiteKey(issuerKey, name, Meta)].Raw?
      ensures r.Found? ==>
                && data[SiteKey(issuerKey, name, Meta)] == Json(r.res.sans, r.res.issuerData) && r.res.issuerKey == issuerKey
                && data[SiteKey(issuerKey, name, Crt)] == r.res.certificate && data[SiteKey(issuerKey, name, Key)] == r.res.privateKey
    {
      var keyKey, crtKey, metaKey := SiteKey(issuerKey, name, Key), SiteKey(issuerKey, name, Crt), SiteKey(issuerKey, name, Meta);
      if keyKey !in data {
        return NotExist;
      }
      var privateKey := data[keyKey];
      if crtKey !in data {
        return NotExist;
      }
      var certificate := data[crtKey];
      if metaKey !in data {
        return NotExist;
      }
      match data[metaKey]
      case Raw(_) => return Malformed;
      case Json(sans, issuerData) => return Found(Resource(sans, certificate, privateKey, issuerData, issuerKey));
    }

    /** What the issuers have, in their order, unless something cannot be decoded. */
    method LoadAll(issuers: seq<string>, name: string, parse: Value -> Option<int>) returns (ok: bool, found: seq<Decoded>)
      ensures ok ==> Collected(LoadsOf(data, issuers, name), parse, |issuers|, found)
      ensures !ok ==> exists k :: 0 <= k < |issuers| && Undecodable(LoadsOf(data, issuers, name)[k], parse)
    {
      ghost var loads := LoadsOf(data, issuers, name);
      found := [];
      var i := 0;
      while i < |issuers|
        invariant 0 <= i <= |issuers|
        invariant Collected(loads, parse, i, found)
      {
        var l := LoadCertResource(issuers[i], name);
        assert l == loads[i];
        if l.Malformed? || (l.Found? && parse(l.res.certificate).None?) {
          return false, [];
        }
        ghost var before := found;
        if l.Found? {
          found := found + [Decoded(i, parse(l.res.certificate).value, l.res)];
        }
        OneMoreCollected(loads, parse, i, before, found);
        i := i + 1;
      }
      ok := true;
    }

    /** With several issuers, the resource with the latest start of validity; with one, whatever it has.
        `parse` gives the start of validity of a certificate that can be decoded. */
    method LoadCertResourceAnyIssuer(issuers: seq<string>, name: string, parse: Value -> Option<int>) returns (r: Loaded)
      ensures var loads := LoadsOf(data, issuers, name);
              && (|issuers| == 1 ==> r == loads[0])
              && (r == NotExist <==> forall i :: 0 <= i < |loads| ==> loads[i] == NotExist)
              && (r.Found? && |issuers| != 1 ==> exists k :: IsNewest(loads, parse, k) && r == loads[k])
              && (r.Found? && |issuers| != 1 ==> NoneNewer(loads, parse, parse(r.res.certificate)))
              && (|issuers| != 1 ==> (r == Malformed <==> exists k :: 0 <= k < |loads| && Undecodable(loads[k], parse)))
    {
      ghost var loads := LoadsOf(data, issuers, name);
      if |issuers| == 1 {
        r := LoadCertResource(issuers[0], name);
        assert r == loads[0];
        return;
      }
      var ok, found := LoadAll(issuers, name, parse);
      if !ok {
        return Malformed;
      }
      CollectedIsAll(loads, parse, found);
      if |found| == 0 {
        return NotExist;
      }
      // sorting newest first leaves the order of equal dates open
      SomeNewest(found);
      var k :| 0 <= k < |found| && Latest(found, k);
      NewestCollected(loads, parse, found, k);
      return Found(found[k].res);
    }
  }

  lemma SavedAsset(d: Data, i: string, n: string, res: Resource, i': string, n': string, a: Asset)
    ensures var (k, e) := (SiteKey(i', n', a), Saved(d, i, n, res));
            if SameSite(i, n, i', n')
            then k in e && e[k] == match a { case Key => res.privateKey case Crt => res.certificate case Meta => Json(res.sans, res.issuerData) }
            else (k in e <==> k in d) && (k in d ==> e[k] == d[k])
  {
    var all := Assets(i, n, res);
    var two, one := all[..2], all[..1];
    assert two[..1] == one && one[..0] == [];
    assert PutAll(d, one) == d[all[0].key := all[0].value];
    assert PutAll(d, two) == d[all[0].key := all[0].value][all[1].key := all[1].value];
    assert Saved(d, i, n, res) == d[all[0].key := all[0].value][all[1].key := all[1].value][all[2].key := all[2].value];
    SiteKeysDiffer(i, n, Key, i', n', a);
    SiteKeysDiffer(i, n, Crt, i', n', a);
    SiteKeysDiffer(i, n, Meta, i', n', a);
  }

  /** What was saved loads back unchanged under the same issuer and name. */
  lemma SaveLoad(d: Data, res: Resource, n: string)
    ensures var e := Saved(d, res.issuerKey, n, res);
            HasCertResources(e, res.issuerKey, n) && LoadFrom(e, res.issuerKey, n) == Found(res)
  {
    SavedAsset(d, res.issuerKey, n, res, res.issuerKey, n, Key);
    SavedAsset(d, res.issuerKey, n, res, res.issuerKey, n, Crt);
    SavedAsset(d, res.issuerKey, n, res, res.issuerKey, n, Meta);
  }

  /** Saving under another issuer or name leaves a resource alone exactly as far as the two do not
      share their keys; where they do, what was saved is found instead, under the other issuer's key. */
  lemma SaveElsewhere(d: Data, res: Resource, i: string, n: string, i': string, n': string)
    ensures LoadFrom(Saved(d, i, n, res), i', n') ==
            if SameSite(i, n, i', n') then Found(res.(issuerKey := i')) else LoadFrom(d, i', n')
  {
    SavedAsset(d, i, n, res, i', n', Key);
    SavedAsset(d, i, n, res, i', n', Crt);
    SavedAsset(d, i, n, res, i', n', Meta);
  }

  /** So with two ordinary issuers, saving the name "/././" for one replaces what the other has. */
  lemma IssuersCollide(d: Data, res: Resource, i: string, i': string)
    requires Ordinary(Safe(i)) && Ordinary(Safe(i'))
    ensures LoadFrom(Saved(d, i, "/././", res), i', "/././") == Found(res.(issuerKey := i'))
  {
    SafeOfClimber();
    SaveElsewhere(d, res, i, "/././", i', "/././");
  }
}
