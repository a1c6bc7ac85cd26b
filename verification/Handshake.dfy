/** Choosing a cached certificate for a TLS handshake. */
module Handshake {
  import opened Wrappers
  import opened Names
  import opened CertCache
  import Renewal

  /** The parts of a ClientHello that matter here; names are already normalised. */
  datatype Hello = Hello(serverName: string, localAddr: Option<string>, supports: Certificate -> bool)

  predicate InDate(c: Certificate, now: nat) {
    c.notBefore < now < Renewal.ExpiresAt(c.notAfter)
  }

  predicate Ideal(hello: Hello, c: Certificate, now: nat) {
    hello.supports(c) && InDate(c, now)
  }

  /** Choice `i` is the first supported in-date one; else the last supported one; else the first. */
  ghost predicate ChosenAt(hello: Hello, choices: seq<Certificate>, now: nat, i: int)
    requires 0 <= i < |choices|
  {
    || (&& Ideal(hello, choices[i], now)
        && forall j :: 0 <= j < i ==> !Ideal(hello, choices[j], now))
    || (&& (forall j :: 0 <= j < |choices| ==> !Ideal(hello, choices[j], now))
        && hello.supports(choices[i])
        && forall j :: i < j < |choices| ==> !hello.supports(choices[j]))
    || (i == 0 && forall j :: 0 <= j < |choices| ==> !hello.supports(choices[j]))
  }

  ghost predicate Chosen(hello: Hello, choices: seq<Certificate>, now: nat, c: Certificate) {
    exists i :: 0 <= i < |choices| && choices[i] == c && ChosenAt(hello, choices, now, i)
  }

  /** The rule leaves no freedom: it singles out one position. */
  lemma ChoiceIsUnique(hello: Hello, choices: seq<Certificate>, now: nat, i: int, j: int)
    requires 0 <= i < |choices| && 0 <= j < |choices|
    requires ChosenAt(hello, choices, now, i) && ChosenAt(hello, choices, now, j)
    ensures i == j
  {}

  /** A choice that is supported and valid now is never passed over for one that is not: if there is one,
      the chosen certificate is supported, has begun to be valid, and expires no sooner than within this
      second. */
  lemma InDateIsPreferred(hello: Hello, choices: seq<Certificate>, now: nat, i: int, j: int)
    requires 0 <= i < |choices| && 0 <= j < |choices| && ChosenAt(hello, choices, now, i)
    requires hello.supports(choices[j]) && choices[j].notBefore < now <= choices[j].notAfter
    ensures hello.supports(choices[i]) && choices[i].notBefore < now < choices[i].notAfter + 1_000_000_001 && i <= j
  {
    Renewal.ExpiryIsEndOfSecond(choices[j].notAfter);
    Renewal.ExpiryIsEndOfSecond(choices[i].notAfter);
    assert Ideal(hello, choices[j], now);
  }

  /** Without one, a supported certificate is chosen if there is any: the last. */
  lemma SupportedIsPreferred(hello: Hello, choices: seq<Certificate>, now: nat, i: int, j: int)
    requires 0 <= i < |choices| && 0 <= j < |choices| && ChosenAt(hello, choices, now, i) && hello.supports(choices[j])
    requires forall k :: 0 <= k < |choices| ==> !hello.supports(choices[k]) || now <= choices[k].notBefore || choices[k].notAfter + 1_000_000_000 <= now
    ensures hello.supports(choices[i]) && j <= i
  {
    forall k | 0 <= k < |choices| ensures !Ideal(hello, choices[k], now) {
      Renewal.ExpiryIsEndOfSecond(choices[k].notAfter);
    }
  }

  /** Both the one-choice fast path and the slow path follow the rule. */
  method DefaultCertificateSelector(hello: Hello, choices: seq<Certificate>, now: nat) returns (r: Option<Certificate>)
    ensures r.None? <==> choices == []
    ensures r.Some? ==> Chosen(hello, choices, now, r.value)
  {
    if |choices| == 1 {
      assert ChosenAt(hello, choices, now, 0);
      return Some(choices[0]);
    }
    if |choices| == 0 {
      return None;
    }
    var best := choices[0];
    ghost var at := -1;
    var i := 0;
    while i < |choices|
      invariant 0 <= i <= |choices|
      invariant -1 <= at < i
      invariant best == choices[if at < 0 then 0 else at]
      invariant at >= 0 ==> hello.supports(choices[at])
      invariant forall j :: at < j < i ==> !hello.supports(choices[j])
      invariant forall j :: 0 <= j < i ==> !Ideal(hello, choices[j], now)
    {
      if hello.supports(choices[i]) {
        best, at := choices[i], i;
        if InDate(choices[i], now) {
          assert ChosenAt(hello, choices, now, i);
          return Some(choices[i]);
        }
      }
      i := i + 1;
    }
    assert ChosenAt(hello, choices, now, if at < 0 then 0 else at);
    return Some(best);
  }

  // ---------------------------------------------------------------- lookup in the cache

  ghost predicate HasName(s: State, name: string) {
    exists h :: h in s.certs && name in s.certs[h].names
  }

  /** `c` is the rule's choice among the certificates the cache lists under `name`. */
  ghost predicate ChosenFor(s: State, hello: Hello, name: string, now: nat, c: Certificate)
    requires Agree(s)
  {
    exists choices ::
      && Chosen(hello, choices, now, c)
      && |choices| == |Lookup(s.index, name)|
      && forall i :: 0 <= i < |choices| ==>
           Lookup(s.index, name)[i] in s.certs && choices[i] == s.certs[Lookup(s.index, name)[i]]
  }

  method SelectCert(cache: Cache, hello: Hello, name: string, now: nat) returns (cert: Certificate, ok: bool)
    requires Agree(cache.St())
    ensures ok <==> HasName(cache.St(), name)
    ensures ok ==> ChosenFor(cache.St(), hello, name, now, cert)
    ensures !ok ==> cert == ZERO
  {
    var choices := cache.GetAllMatchingCerts(name);
    var r := DefaultCertificateSelector(hello, choices, now);
    if choices != [] {
      assert choices[0] in choices;
    }
    match r
    case None => return ZERO, false;
    case Some(c) => return c, true;
  }

  /** Some number of leading stars `k` leads to a cached certificate, and no smaller number does. */
  ghost predicate FewestStars(s: State, name: string, k: nat) {
    && k <= |Split(name, '.')| && HasName(s, Candidate(name, k))
    && forall j: nat :: j < k ==> !HasName(s, Candidate(name, j))
  }

  /** The name with ever more leading labels starred, until one leads to a cached certificate. */
  method SelectByWildcards(cache: Cache, hello: Hello, name: string, now: nat) returns (cert: Certificate, matched: bool)
    requires Agree(cache.St()) && !HasName(cache.St(), Candidate(name, 0))
    ensures matched ==> exists k: nat :: FewestStars(cache.St(), name, k) && ChosenFor(cache.St(), hello, Candidate(name, k), now, cert)
    ensures !matched ==> cert == ZERO && forall k: nat :: k <= |Split(name, '.')| ==> !HasName(cache.St(), Candidate(name, k))
  {
    cert, matched := ZERO, false;
    var labels := Split(name, '.');
    ghost var original := labels;
    var i := 0;
    while i < |labels|
      invariant 0 <= i <= |labels| == |original|
      invariant forall k :: 0 <= k < |labels| ==> labels[k] == if k < i then STAR else original[k]
      invariant forall k: nat :: k <= i ==> !HasName(cache.St(), Candidate(name, k))
      invariant cert == ZERO && !matched
    {
      labels := labels[i := STAR];
      IsCandidate(name, labels, i + 1);
      cert, matched := SelectCert(cache, hello, Join(labels, '.'), now);
      if matched {
        assert FewestStars(cache.St(), name, i + 1);
        return;
      }
      i := i + 1;
    }
  }

  /** A non-empty server name is matched exactly when some cached certificate has it exactly or with
      leading wildcards, exact before wildcard and fewer stars first; without a server name the local
      address decides, then the default name; the fallback name comes last. */
  method GetCertificateFromCache(cache: Cache, hello: Hello, defaultName: string, fallbackName: string, now: nat)
    returns (cert: Certificate, matched: bool, defaulted: bool)
    requires Agree(cache.St())
    ensures hello.serverName != "" ==>
              (matched <==> exists k: nat :: k <= |Split(hello.serverName, '.')| && HasName(cache.St(), Candidate(hello.serverName, k)))
    ensures hello.serverName != "" && matched ==>
              exists k: nat :: FewestStars(cache.St(), hello.serverName, k)
                               && ChosenFor(cache.St(), hello, Candidate(hello.serverName, k), now, cert)
    ensures hello.serverName == "" ==>
              (matched <==> hello.localAddr.Some? && HasName(cache.St(), hello.localAddr.value))
    ensures hello.serverName == "" && matched ==> ChosenFor(cache.St(), hello, hello.localAddr.value, now, cert)
    ensures defaulted <==> !matched && (UsesDefault(cache.St(), hello, defaultName)
                                        || (fallbackName != "" && HasName(cache.St(), fallbackName)))
    ensures defaulted ==>
              ChosenFor(cache.St(), hello, if UsesDefault(cache.St(), hello, defaultName) then defaultName else fallbackName, now, cert)
    ensures !matched && !defaulted ==> cert == ZERO
  {
    cert, matched, defaulted := ZERO, false, false;
    var name := hello.serverName;
    if name == "" {
      if hello.localAddr.Some? {
        cert, matched := SelectCert(cache, hello, hello.localAddr.value, now);
        if matched {
          return;
        }
      }
      if defaultName != "" {
        cert, defaulted := SelectCert(cache, hello, defaultName, now);
        if defaulted {
          return;
        }
      }
    } else {
      CandidateZero(name);
      cert, matched := SelectCert(cache, hello, name, now);
      if matched {
        assert FewestStars(cache.St(), name, 0);
        return;
      }
      cert, matched := SelectByWildcards(cache, hello, name, now);
      if matched {
        return;
      }
    }
    if fallbackName != "" {
      cert, defaulted := SelectCert(cache, hello, fallbackName, now);
    }
  }

  ghost predicate UsesDefault(s: State, hello: Hello, defaultName: string) {
    hello.serverName == "" && defaultName != "" && HasName(s, defaultName)
  }
}
