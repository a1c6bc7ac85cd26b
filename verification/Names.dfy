/** Domain names as dot-separated labels, and wildcard matching over them. */
module Names {

  function LowerChar(c: char): char {
    if 'A' <= c <= 'Z' then (c as int + 32) as char else c
  }

  /** ASCII lower-casing. */
  function ToLower(s: string): string {
    seq(|s|, i requires 0 <= i < |s| => LowerChar(s[i]))
  }

  predicate IsLower(s: string) {
    forall i :: 0 <= i < |s| ==> !('A' <= s[i] <= 'Z')
  }

  function Split(s: string, sep: char): (parts: seq<string>)
    ensures parts != [] && forall p :: p in parts ==> sep !in p
  {
    if s == "" then [""]
    else
      var rest := Split(s[1..], sep);
      if s[0] == sep then [""] + rest else [[s[0]] + rest[0]] + rest[1..]
  }

  function Join(parts: seq<string>, sep: char): string {
    if parts == [] then ""
    else if |parts| == 1 then parts[0]
    else parts[0] + [sep] + Join(parts[1..], sep)
  }

  lemma {:induction false} JoinSplit(s: string, sep: char)
    ensures Join(Split(s, sep), sep) == s
  {
    if s != "" {
      JoinSplit(s[1..], sep);
      var rest := Split(s[1..], sep);
      assert s == [s[0]] + s[1..];
      if s[0] == sep {
        assert ([""] + rest)[1..] == rest;
      } else {
        assert ([[s[0]] + rest[0]] + rest[1..])[1..] == rest[1..];
      }
    }
  }

  lemma {:induction false} SplitPart(p: string, sep: char)
    requires sep !in p
    ensures Split(p, sep) == [p]
  {
    if p != "" {
      assert sep !in p[1..];
      SplitPart(p[1..], sep);
      assert p == [p[0]] + p[1..];
    }
  }

  lemma {:induction false} SplitConcat(p: string, s: string, sep: char)
    requires sep !in p
    ensures Split(p + [sep] + s, sep) == [p] + Split(s, sep)
  {
    if p == "" {
      assert (p + [sep] + s)[1..] == s;
    } else {
      assert sep !in p[1..];
      SplitConcat(p[1..], s, sep);
      assert (p + [sep] + s)[1..] == p[1..] + [sep] + s;
      assert p == [p[0]] + p[1..];
    }
  }

  lemma {:induction false} SplitJoin(parts: seq<string>, sep: char)
    requires parts != [] && forall p :: p in parts ==> sep !in p
    ensures Split(Join(parts, sep), sep) == parts
  {
    if |parts| == 1 {
      SplitPart(parts[0], sep);
    } else {
      SplitJoin(parts[1..], sep);
      SplitConcat(parts[0], Join(parts[1..], sep), sep);
      assert parts == [parts[0]] + parts[1..];
    }
  }

  lemma {:induction false} PartOccurs(parts: seq<string>, sep: char, i: nat, c: char)
    requires i < |parts| && c in parts[i]
    ensures c in Join(parts, sep)
  {
    if |parts| > 1 && i > 0 {
      PartOccurs(parts[1..], sep, i - 1, c);
    }
  }

  lemma LowerIsFixed(s: string)
    requires IsLower(s)
    ensures ToLower(s) == s
  {}

  /** Lower-casing turns the 26 capitals into their small letters and leaves everything else. */
  lemma LowerCases(s: string, i: nat)
    requires i < |s|
    ensures |ToLower(s)| == |s|
    ensures var (capitals, smalls) := ("ABCDEFGHIJKLMNOPQRSTUVWXYZ", "abcdefghijklmnopqrstuvwxyz");
            && (forall k :: 0 <= k < 26 && s[i] == capitals[k] ==> ToLower(s)[i] == smalls[k])
            && ((forall k :: 0 <= k < 26 ==> s[i] != capitals[k]) ==> ToLower(s)[i] == s[i])
  {
    var (capitals, smalls) := ("ABCDEFGHIJKLMNOPQRSTUVWXYZ", "abcdefghijklmnopqrstuvwxyz");
    assert forall k :: 0 <= k < 26 ==> capitals[k] as int == 65 + k && smalls[k] as int == 97 + k;
    if 'A' <= s[i] <= 'Z' {
      assert s[i] == capitals[s[i] as int - 65];
    }
  }

  // ---------------------------------------------------------------- wildcards

  const STAR := "*"

  /** The label that stands for `part` in a wildcard candidate; an empty label is invalid and stays. */
  function Star(part: string): string {
    if part == "" then "" else STAR
  }

  /** A non-empty leading run of labels is starred (empty ones skipped), the rest is equal. */
  ghost predicate LeadingStars(subject: seq<string>, wildcard: seq<string>) {
    exists k :: 0 < k <= |subject| && StarredUpTo(subject, wildcard, k)
  }

  ghost predicate StarredUpTo(subject: seq<string>, wildcard: seq<string>, k: int)
    requires 0 < k <= |subject|
  {
    && |subject| == |wildcard|
    && subject[k - 1] != ""
    && (forall i :: 0 <= i < k ==> wildcard[i] == Star(subject[i]))
    && (forall i :: k <= i < |subject| ==> wildcard[i] == subject[i])
  }

  /** The label-wise matching rule, case-insensitively. */
  ghost predicate Matches(subject: string, wildcard: string) {
    var (s, w) := (ToLower(subject), ToLower(wildcard));
    s == w || LeadingStars(Split(s, '.'), Split(w, '.'))
  }

  lemma CandidateEquals(labels: seq<string>, wildcard: string)
    requires labels != [] && forall l :: l in labels ==> '.' !in l
    ensures Join(labels, '.') == wildcard <==> labels == Split(wildcard, '.')
  {
    SplitJoin(labels, '.');
    JoinSplit(wildcard, '.');
  }

  lemma MatchHasStar(subject: seq<string>, w: string)
    requires LeadingStars(subject, Split(w, '.'))
    ensures '*' in w
  {
    var target := Split(w, '.');
    var k :| 0 < k <= |subject| && StarredUpTo(subject, target, k);
    assert target[k - 1] == STAR && '*' in target[k - 1];
    PartOccurs(target, '.', k - 1, '*');
    JoinSplit(w, '.');
  }

  /** `labels` is `original` with the labels before `k` starred. */
  ghost predicate IsStarred(original: seq<string>, labels: seq<string>, k: nat) {
    && k <= |original| == |labels|
    && forall i :: 0 <= i < |labels| ==> labels[i] == if i < k then Star(original[i]) else original[i]
  }

  lemma StarOneMore(original: seq<string>, labels: seq<string>, k: nat)
    requires k < |original| && IsStarred(original, labels, k)
    ensures labels[k] == original[k]
    ensures IsStarred(original, if labels[k] == "" then labels else labels[k := STAR], k + 1)
  {}

  /** The candidate with the labels before `k` starred equals `w` exactly if the rule holds with `k`. */
  lemma StarredEquals(original: seq<string>, labels: seq<string>, w: string, k: nat)
    requires 0 < k && IsStarred(original, labels, k) && original[k - 1] != ""
    requires forall l :: l in original ==> '.' !in l
    ensures Join(labels, '.') == w <==> StarredUpTo(original, Split(w, '.'), k)
  {
    forall l | l in labels ensures '.' !in l {
      var i :| 0 <= i < |labels| && labels[i] == l;
    }
    CandidateEquals(labels, w);
    if StarredUpTo(original, Split(w, '.'), k) {
      assert labels == Split(w, '.');
    }
  }

  /** No leading run of at most `n` labels, starred, leads to `target`. */
  ghost predicate NoneUpTo(original: seq<string>, target: seq<string>, n: nat)
    requires n <= |original|
  {
    forall k :: 0 < k <= n ==> !StarredUpTo(original, target, k)
  }

  lemma NoneOneMore(original: seq<string>, target: seq<string>, n: nat)
    requires n < |original| && NoneUpTo(original, target, n)
    ensures NoneUpTo(original, target, n + 1) <==> !StarredUpTo(original, target, n + 1)
    ensures StarredUpTo(original, target, n + 1) ==> original[n] != "" && LeadingStars(original, target)
  {}

  /** Stars label `i`, unless it is empty, and compares. */
  method StarNext(original: seq<string>, labels: seq<string>, i: nat, w: string) returns (labels': seq<string>, hit: bool)
    requires i < |original| && IsStarred(original, labels, i) && forall l :: l in original ==> '.' !in l
    ensures IsStarred(original, labels', i + 1)
    ensures hit <==> StarredUpTo(original, Split(w, '.'), i + 1)
  {
    StarOneMore(original, labels, i);
    if labels[i] == "" {
      return labels, false;
    }
    labels' := labels[i := STAR];
    StarredEquals(original, labels', w, i + 1);
    hit := Join(labels', '.') == w;
  }

  /** Stars the labels from the left, one more each time, skipping empty ones. */
  method MatchLabels(original: seq<string>, w: string) returns (matched: bool)
    requires forall l :: l in original ==> '.' !in l
    ensures matched <==> LeadingStars(original, Split(w, '.'))
  {
    ghost var target := Split(w, '.');
    var labels := original;
    var i := 0;
    while i < |labels|
      invariant 0 <= i <= |labels| && IsStarred(original, labels, i) && NoneUpTo(original, target, i)
    {
      NoneOneMore(original, target, i);
      labels, matched := StarNext(original, labels, i, w);
      if matched {
        return;
      }
      i := i + 1;
    }
    return false;
  }

  method MatchStarred(s: string, w: string) returns (matched: bool)
    ensures matched <==> LeadingStars(Split(s, '.'), Split(w, '.'))
  {
    var labels := Split(s, '.');
    matched := MatchLabels(labels, w);
  }

  method MatchWildcard(subject: string, wildcard: string) returns (matched: bool)
    ensures matched <==> Matches(subject, wildcard)
  {
    var s, w := ToLower(subject), ToLower(wildcard);
    if s == w {
      return true;
    }
    if '*' !in w {
      if LeadingStars(Split(s, '.'), Split(w, '.')) {
        MatchHasStar(Split(s, '.'), w);
      }
      return false;
    }
    matched := MatchStarred(s, w);
  }

  /** Against a wildcard whose only star is its first label, only the first label is starred. */
  lemma OnlyFirstStarred(subject: seq<string>, rest: string, k: nat)
    requires '*' !in rest && 0 < k <= |subject| && StarredUpTo(subject, ["*"] + Split(rest, '.'), k)
    ensures k == 1
  {
    if k > 1 {
      var tail := Split(rest, '.');
      assert (["*"] + tail)[k - 1] == tail[k - 2] && '*' in tail[k - 2];
      PartOccurs(tail, '.', k - 2, '*');
      JoinSplit(rest, '.');
    }
  }

  lemma FirstLabelStarred(s: string, rest: string)
    requires Split(s, '.') != [] && StarredUpTo(Split(s, '.'), ["*"] + Split(rest, '.'), 1)
    ensures exists first :: first != "" && '.' !in first && s == first + "." + rest
  {
    var (subject, tail) := (Split(s, '.'), Split(rest, '.'));
    assert subject == [subject[0]] + tail && subject[0] in subject;
    assert subject[1..] == tail;
    JoinSplit(s, '.');
    JoinSplit(rest, '.');
    assert s == subject[0] + "." + rest;
  }

  /** A wildcard with one star in front matches, besides itself, exactly the names with one more label than
      what follows the star, that label not being empty. */
  lemma StarMatchesOneLabel(s: string, rest: string)
    requires IsLower(s) && IsLower(rest) && '*' !in rest
    ensures Matches(s, "*." + rest) <==>
            s == "*." + rest || exists first :: first != "" && '.' !in first && s == first + "." + rest
  {
    var w := "*." + rest;
    LowerIsFixed(s);
    LowerIsFixed(w);
    StarInFront(s, rest);
  }

  lemma StarInFront(s: string, rest: string)
    requires '*' !in rest
    ensures LeadingStars(Split(s, '.'), Split("*." + rest, '.')) <==>
            exists first :: first != "" && '.' !in first && s == first + "." + rest
  {
    var (subject, target) := (Split(s, '.'), ["*"] + Split(rest, '.'));
    SplitConcat("*", rest, '.');
    assert "*" + ['.'] + rest == "*." + rest;
    if k :| 0 < k <= |subject| && StarredUpTo(subject, target, k) {
      OnlyFirstStarred(subject, rest, k);
      FirstLabelStarred(s, rest);
    }
    if first :| first != "" && '.' !in first && s == first + "." + rest {
      SplitConcat(first, rest, '.');
      assert StarredUpTo(subject, target, 1);
    }
  }

  // ---------------------------------------------------------------- lookup candidates

  /** The name whose first `k` labels are replaced by stars, as the cache lookups build it. */
  function Candidate(name: string, k: nat): string
    requires k <= |Split(name, '.')|
  {
    var labels := Split(name, '.');
    Join(seq(|labels|, i requires 0 <= i < |labels| => if i < k then STAR else labels[i]), '.')
  }

  /** A candidate's labels: `k` stars, then the name's own. */
  lemma CandidateLabels(name: string, k: nat)
    requires k <= |Split(name, '.')|
    ensures Split(Candidate(name, k), '.') == seq(k, _ => "*") + Split(name, '.')[k..]
  {
    var labels := Split(name, '.');
    var starred := seq(|labels|, i requires 0 <= i < |labels| => if i < k then STAR else labels[i]);
    forall p | p in starred ensures '.' !in p {
      var i :| 0 <= i < |starred| && starred[i] == p;
    }
    SplitJoin(starred, '.');
    assert starred == seq(k, _ => "*") + labels[k..];
  }

  lemma CandidateZero(name: string)
    ensures Candidate(name, 0) == name
  {
    var labels := Split(name, '.');
    assert labels == seq(|labels|, i requires 0 <= i < |labels| => if i < 0 then STAR else labels[i]);
    JoinSplit(name, '.');
  }

  lemma IsCandidate(name: string, labels: seq<string>, k: nat)
    requires |labels| == |Split(name, '.')| && k <= |labels|
    requires forall i :: 0 <= i < |labels| ==> labels[i] == if i < k then STAR else Split(name, '.')[i]
    ensures Join(labels, '.') == Candidate(name, k)
  {
    var original := Split(name, '.');
    assert labels == seq(|original|, i requires 0 <= i < |original| => if i < k then STAR else original[i]);
  }

  lemma StarredCandidate(name: string, n: string, k: nat)
    requires 0 < k <= |Split(name, '.')| && "" !in Split(name, '.')
    ensures n == Candidate(name, k) <==> StarredUpTo(Split(name, '.'), Split(n, '.'), k)
  {
    var labels, target := Split(name, '.'), Split(n, '.');
    var starred := seq(|labels|, i requires 0 <= i < |labels| => if i < k then STAR else labels[i]);
    CandidateEquals(starred, n);
    if StarredUpTo(labels, target, k) {
      assert starred == target;
    }
  }

  /** On a lower-case name without empty labels the candidates are exactly the names that match it. */
  lemma CandidatesAreMatches(name: string, n: string)
    requires IsLower(name) && IsLower(n) && "" !in Split(name, '.')
    ensures Matches(name, n) <==> exists k: nat :: k <= |Split(name, '.')| && n == Candidate(name, k)
  {
    LowerIsFixed(name);
    LowerIsFixed(n);
    CandidateZero(name);
    if name == n {
      assert n == Candidate(name, 0);
    } else if LeadingStars(Split(name, '.'), Split(n, '.')) {
      var k :| 0 < k <= |Split(name, '.')| && StarredUpTo(Split(name, '.'), Split(n, '.'), k);
      StarredCandidate(name, n, k);
    } else {
      forall k: nat | k <= |Split(name, '.')| ensures n != Candidate(name, k) {
        if k > 0 {
          StarredCandidate(name, n, k);
        }
      }
    }
  }

  lemma {:induction false} JoinOfLower(parts: seq<string>, sep: char)
    requires IsLower([sep]) && forall p :: p in parts ==> IsLower(p)
    ensures IsLower(Join(parts, sep))
  {
    if |parts| == 1 {
      assert parts[0] in parts;
    } else if |parts| > 1 {
      assert parts[0] in parts && [sep][0] == sep;
      JoinOfLower(parts[1..], sep);
    }
  }

  lemma CandidateOfLower(name: string, k: nat)
    requires IsLower(name) && k <= |Split(name, '.')|
    ensures IsLower(Candidate(name, k))
  {
    var labels := Split(name, '.');
    var starred := seq(|labels|, i requires 0 <= i < |labels| => if i < k then STAR else labels[i]);
    forall i | 0 <= i < |starred| ensures IsLower(starred[i]) {
      if i >= k {
        forall j | 0 <= j < |labels[i]| ensures !('A' <= labels[i][j] <= 'Z') {
          PartOccurs(labels, '.', i, labels[i][j]);
          JoinSplit(name, '.');
        }
      }
    }
    JoinOfLower(starred, '.');
  }

  ghost predicate CandidatesMatch(name: string, n: string) {
    Matches(name, n) <==> exists k: nat :: k <= |Split(name, '.')| && n == Candidate(name, k)
  }

  lemma EmptyLabelCandidate(name: string, e: nat)
    requires e < |Split(name, '.')| && Split(name, '.')[e] == ""
    ensures var n := Candidate(name, e + 1); n != name && !LeadingStars(Split(name, '.'), Split(n, '.'))
  {
    var labels := Split(name, '.');
    var starred := seq(|labels|, i requires 0 <= i < |labels| => if i < e + 1 then STAR else labels[i]);
    SplitJoin(starred, '.');
    assert starred[e] == STAR;
  }

  /** The lookup candidates of a lower-case name agree with the matching rule on every lower-case
      name exactly when it has no empty label: the lookup stars empty labels, the rule skips them. */
  lemma EmptyLabelsDiffer(name: string)
    requires IsLower(name)
    ensures "" !in Split(name, '.') <==> forall n | IsLower(n) :: CandidatesMatch(name, n)
  {
    if "" !in Split(name, '.') {
      forall n | IsLower(n) ensures CandidatesMatch(name, n) {
        CandidatesAreMatches(name, n);
      }
    } else {
      var e :| 0 <= e < |Split(name, '.')| && Split(name, '.')[e] == "";
      var n := Candidate(name, e + 1);
      CandidateOfLower(name, e + 1);
      LowerIsFixed(name);
      LowerIsFixed(n);
      EmptyLabelCandidate(name, e);
      assert !CandidatesMatch(name, n);
    }
  }
}
