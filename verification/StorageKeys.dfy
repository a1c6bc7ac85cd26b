/** Building storage keys: sanitising their components and putting them together. */
module StorageKeys {
  import opened Names

  // ---------------------------------------------------------------- Safe

  predicate IsSpace(c: char) {
    c == ' ' || '\t' <= c <= '\r'
  }

  function TrimLeft(s: string): string {
    if s != "" && IsSpace(s[0]) then TrimLeft(s[1..]) else s
  }

  function TrimRight(s: string): string {
    if s != "" && IsSpace(s[|s| - 1]) then TrimRight(s[..|s| - 1]) else s
  }

  function Substitute(c: char): string {
    if c == ' ' then "_" else if c == '+' then "_plus_" else if c == '*' then "wildcard_" else if c == ':' then "-" else [c]
  }

  /** One pass from left to right; two adjacent dots are dropped. */
  function Replaced(s: string): string {
    if s == "" then ""
    else if |s| >= 2 && s[0] == '.' && s[1] == '.' then Replaced(s[2..])
    else Substitute(s[0]) + Replaced(s[1..])
  }

  predicate IsSafeChar(c: char) {
    'a' <= c <= 'z' || '0' <= c <= '9' || c == '_' || c == '@' || c == '.' || c == '-'
  }

  /** The characters that the final filter keeps. */
  predicate Kept(c: char) {
    IsSafeChar(c) || 'A' <= c <= 'Z'
  }

  function Filter(s: string): string {
    if s == "" then "" else (if Kept(s[0]) then [s[0]] else "") + Filter(s[1..])
  }

  /** The string the final filter is applied to. */
  function Unfiltered(s: string): string {
    Replaced(TrimRight(TrimLeft(ToLower(s))))
  }

  function Safe(s: string): string {
    Filter(Unfiltered(s))
  }

  predicate AllSafe(s: string) {
    forall i :: 0 <= i < |s| ==> IsSafeChar(s[i])
  }

  lemma {:induction false} TrimOfLower(s: string)
    requires IsLower(s)
    ensures IsLower(TrimLeft(s)) && IsLower(TrimRight(s))
    decreases |s|
  {
    if s != "" {
      TrimOfLower(s[1..]);
      TrimOfLower(s[..|s| - 1]);
    }
  }

  lemma {:induction false} ReplacedOfLower(s: string)
    requires IsLower(s)
    ensures IsLower(Replaced(s))
    decreases |s|
  {
    if |s| >= 2 && s[0] == '.' && s[1] == '.' {
      ReplacedOfLower(s[2..]);
    } else if s != "" {
      ReplacedOfLower(s[1..]);
      assert IsLower(Substitute(s[0]));
    }
  }

  lemma {:induction false} FilterOfLower(s: string)
    requires IsLower(s)
    ensures AllSafe(Filter(s))
  {
    if s != "" {
      FilterOfLower(s[1..]);
    }
  }

  /** Every result consists of lower-case word characters and `@.-` only. */
  lemma SafeAlphabet(s: string)
    ensures AllSafe(Safe(s))
  {
    TrimOfLower(ToLower(s));
    TrimOfLower(TrimLeft(ToLower(s)));
    ReplacedOfLower(TrimRight(TrimLeft(ToLower(s))));
    FilterOfLower(Unfiltered(s));
  }

  // ---------------------------------------------------------------- adjacent dots

  ghost predicate NoDoubleDot(s: string) {
    forall i :: 0 <= i < |s| - 1 ==> !(s[i] == '.' && s[i + 1] == '.')
  }

  lemma {:induction false} WordInFront(w: string, f: string)
    requires '.' !in w && NoDoubleDot(f)
    ensures NoDoubleDot(w + f)
  {
    if w == "" {
      assert w + f == f;
    } else {
      WordInFront(w[1..], f);
      assert w + f == [w[0]] + (w[1..] + f);
      DotInFront(w[0], w[1..] + f);
    }
  }

  lemma {:induction false} ReplacedHasNoDoubleDot(s: string)
    ensures NoDoubleDot(Replaced(s))
    ensures s != "" && s[0] != '.' ==> Replaced(s) != "" && Replaced(s)[0] != '.'
    decreases |s|
  {
    if |s| >= 2 && s[0] == '.' && s[1] == '.' {
      ReplacedHasNoDoubleDot(s[2..]);
    } else if s != "" {
      ReplacedHasNoDoubleDot(s[1..]);
      if s[0] == '.' {
        DotInFront('.', Replaced(s[1..]));
      } else {
        WordInFront(Substitute(s[0]), Replaced(s[1..]));
      }
    }
  }

  lemma {:induction false} ReplacedOfSafe(s: string)
    requires AllSafe(s)
    ensures if NoDoubleDot(s) then Replaced(s) == s else |Replaced(s)| < |s|
    decreases |s|
  {
    if |s| >= 2 && s[0] == '.' && s[1] == '.' {
      ReplacedOfSafe(s[2..]);
    } else if s != "" {
      ReplacedOfSafe(s[1..]);
      assert s == [s[0]] + s[1..];
      assert NoDoubleDot(s) <==> NoDoubleDot(s[1..]) by {
        if !NoDoubleDot(s) {
          var i :| 0 <= i < |s| - 1 && s[i] == '.' && s[i + 1] == '.';
          assert s[1..][i - 1] == '.' && s[1..][i] == '.';
        } else {
          forall i | 0 <= i < |s[1..]| - 1 ensures !(s[1..][i] == '.' && s[1..][i + 1] == '.') {
            assert s[1..][i] == s[i + 1] && s[1..][i + 1] == s[i + 1 + 1];
          }
        }
      }
    }
  }

  lemma {:induction false} FilterOfKept(s: string)
    ensures |Filter(s)| <= |s|
    ensures (forall i :: 0 <= i < |s| ==> Kept(s[i])) ==> Filter(s) == s
  {
    if s != "" {
      FilterOfKept(s[1..]);
      assert s == [s[0]] + s[1..];
    }
  }

  /** A sanitised string is left alone by sanitising it again exactly when it has no two adjacent dots. */
  lemma SafeOfSafe(t: string)
    requires AllSafe(t)
    ensures Safe(t) == t <==> NoDoubleDot(t)
  {
    LowerIsFixed(t);
    assert TrimLeft(t) == t && TrimRight(t) == t;
    ReplacedOfSafe(t);
    FilterOfKept(Replaced(t));
    if NoDoubleDot(t) {
      FilterOfKept(t);
    }
  }

  /** Two dots with nothing but discarded characters between them. */
  ghost predicate DotsMeet(s: string) {
    exists i, j :: Meet(s, i, j)
  }

  /** The first kept character of `s` is a dot. */
  ghost predicate DotFirst(s: string) {
    exists j :: 0 <= j < |s| && s[j] == '.' && forall k :: 0 <= k < j ==> !Kept(s[k])
  }

  lemma {:induction false} FirstKept(s: string)
    ensures DotFirst(s) <==> Filter(s) != "" && Filter(s)[0] == '.'
  {
    if s != "" {
      FirstKept(s[1..]);
      if !Kept(s[0]) {
        assert DotFirst(s) ==> DotFirst(s[1..]) by {
          if DotFirst(s) {
            var j :| 0 <= j < |s| && s[j] == '.' && forall k :: 0 <= k < j ==> !Kept(s[k]);
            assert s[1..][j - 1] == '.';
          }
        }
        assert DotFirst(s[1..]) ==> DotFirst(s) by {
          if DotFirst(s[1..]) {
            var j :| 0 <= j < |s[1..]| && s[1..][j] == '.' && forall k :: 0 <= k < j ==> !Kept(s[1..][k]);
            assert s[j + 1] == '.' && forall k :: 0 < k < j + 1 ==> s[k] == s[1..][k - 1];
          }
        }
      }
    }
  }

  /** Dots at `i` and `j` with nothing but discarded characters between them. */
  ghost predicate Meet(s: string, i: int, j: int) {
    0 <= i < j < |s| && s[i] == '.' && s[j] == '.' && forall k :: i < k < j ==> !Kept(s[k])
  }

  lemma MeetShift(s: string, i: int, j: int)
    requires s != "" && i > 0
    ensures Meet(s, i, j) <==> Meet(s[1..], i - 1, j - 1)
  {
    assert forall k :: 0 <= k < |s[1..]| ==> s[1..][k] == s[k + 1];
    if Meet(s[1..], i - 1, j - 1) {
      forall k | i < k < j ensures !Kept(s[k]) {
        assert !Kept(s[1..][k - 1]);
      }
    }
  }

  lemma MeetFirst(s: string)
    requires s != "" && s[0] == '.'
    ensures DotFirst(s[1..]) <==> exists j :: Meet(s, 0, j)
  {
    var t := s[1..];
    assert forall k :: 0 <= k < |t| ==> t[k] == s[k + 1];
    if DotFirst(t) {
      var j :| 0 <= j < |t| && t[j] == '.' && forall k :: 0 <= k < j ==> !Kept(t[k]);
      forall k | 0 < k < j + 1 ensures !Kept(s[k]) {
        assert !Kept(t[k - 1]);
      }
      assert Meet(s, 0, j + 1);
    }
    if exists j :: Meet(s, 0, j) {
      var j :| Meet(s, 0, j);
      assert t[j - 1] == '.';
    }
  }

  lemma MeetStep(s: string)
    requires s != ""
    ensures DotsMeet(s) <==> DotsMeet(s[1..]) || (s[0] == '.' && DotFirst(s[1..]))
  {
    if s[0] == '.' {
      MeetFirst(s);
    }
    if DotsMeet(s) {
      var i, j :| Meet(s, i, j);
      if i > 0 {
        MeetShift(s, i, j);
      }
    }
    if DotsMeet(s[1..]) {
      var i, j :| Meet(s[1..], i, j);
      MeetShift(s, i + 1, j + 1);
    }
  }

  lemma DotInFront(c: char, f: string)
    ensures NoDoubleDot([c] + f) <==> NoDoubleDot(f) && !(c == '.' && f != "" && f[0] == '.')
  {
    var g := [c] + f;
    assert forall i :: 0 <= i < |f| ==> f[i] == g[i + 1];
    if NoDoubleDot(f) && !(c == '.' && f != "" && f[0] == '.') {
      forall i | 0 <= i < |g| - 1 ensures !(g[i] == '.' && g[i + 1] == '.') {
        if i > 0 {
          assert !(f[i - 1] == '.' && f[i - 1 + 1] == '.');
        }
      }
    }
    if NoDoubleDot(g) {
      forall i | 0 <= i < |f| - 1 ensures !(f[i] == '.' && f[i + 1] == '.') {
        assert !(g[i + 1] == '.' && g[i + 1 + 1] == '.');
      }
      if f != "" {
        assert !(g[0] == '.' && g[0 + 1] == '.');
      }
    }
  }

  lemma {:induction false} FilterDots(s: string)
    ensures NoDoubleDot(Filter(s)) <==> !DotsMeet(s)
  {
    if s != "" {
      FilterDots(s[1..]);
      FirstKept(s[1..]);
      MeetStep(s);
      var f := Filter(s[1..]);
      DotInFront(s[0], f);
      assert Filter(s) == if Kept(s[0]) then [s[0]] + f else f;
    }
  }

  /** Sanitising is idempotent exactly on the inputs in which, after replacement, no run of discarded
      characters stands between two dots: the filter that discards characters runs last. */
  lemma SafeIdempotentIff(s: string)
    ensures Safe(Safe(s)) == Safe(s) <==> !DotsMeet(Unfiltered(s))
    ensures NoDoubleDot(Safe(s)) <==> !DotsMeet(Unfiltered(s))
  {
    SafeAlphabet(s);
    SafeOfSafe(Safe(s));
    FilterDots(Unfiltered(s));
  }

  /** A character that is kept or explicitly replaced. */
  predicate Plain(c: char) {
    Kept(c) || c == ' ' || c == '+' || c == '*' || c == ':'
  }

  predicate AllPlain(s: string) {
    forall i :: 0 <= i < |s| ==> Plain(s[i])
  }

  lemma {:induction false} TrimOfPlain(s: string)
    requires AllPlain(s)
    ensures AllPlain(TrimLeft(s)) && AllPlain(TrimRight(s))
    decreases |s|
  {
    if s != "" {
      TrimOfPlain(s[1..]);
      TrimOfPlain(s[..|s| - 1]);
    }
  }

  lemma {:induction false} ReplacedOfPlain(s: string)
    requires AllPlain(s)
    ensures forall i :: 0 <= i < |Replaced(s)| ==> Kept(Replaced(s)[i])
    decreases |s|
  {
    if |s| >= 2 && s[0] == '.' && s[1] == '.' {
      ReplacedOfPlain(s[2..]);
    } else if s != "" {
      ReplacedOfPlain(s[1..]);
      assert forall i :: 0 <= i < |Substitute(s[0])| ==> Kept(Substitute(s[0])[i]);
    }
  }

  /** On inputs made only of kept or explicitly replaced characters, sanitising is idempotent and
      leaves no two adjacent dots. */
  lemma SafeOfPlain(s: string)
    requires AllPlain(s)
    ensures Safe(Safe(s)) == Safe(s) && NoDoubleDot(Safe(s))
  {
    var r := Unfiltered(s);
    TrimOfPlain(ToLower(s));
    TrimOfPlain(TrimLeft(ToLower(s)));
    ReplacedOfPlain(TrimRight(TrimLeft(ToLower(s))));
    ReplacedHasNoDoubleDot(TrimRight(TrimLeft(ToLower(s))));
    forall i, j | 0 <= i < j < |r| && r[i] == '.' && r[j] == '.' ensures !Meet(r, i, j) {
      assert i + 1 < j && Kept(r[i + 1]);
    }
    SafeIdempotentIff(s);
  }

  lemma UnfilteredDots(s: string)
    requires s == "./." || s == ".."
    ensures Unfiltered(s) == Replaced(s)
  {
    LowerIsFixed(s);
    assert TrimLeft(s) == s && TrimRight(s) == s;
  }

  /** The counterexample to unconditional idempotence. */
  lemma SafeNotIdempotent()
    ensures Safe("./.") == ".." && Safe("..") == ""
  {
    UnfilteredDots("./.");
    UnfilteredDots("..");
    var (x, y, z) := ("./.", "/.", ".");
    assert x[1..] == y && y[1..] == z && z[1..] == "" && ".."[2..] == "";
    assert Replaced(z) == z && Filter(z) == z;
    assert Replaced(y) == y && Filter(y) == z;
    assert Replaced(x) == x && Filter(x) == "..";
  }

  lemma AfterSafeChar(c: char, s: string)
    requires IsSafeChar(c) && c != '.'
    ensures Replaced([c] + s) == [c] + Replaced(s) && Filter([c] + s) == [c] + Filter(s)
  {
    assert ([c] + s)[1..] == s;
  }

  /** A string without dots that is safe already stays as it is in front of another. */
  lemma {:induction false} AfterSafeWord(w: string, s: string)
    requires AllSafe(w) && '.' !in w
    ensures Replaced(w + s) == w + Replaced(s) && Filter(w + s) == w + Filter(s)
  {
    if w == "" {
      assert w + s == s;
    } else {
      var (c, v) := (w[0], w[1..]);
      AfterSafeWord(v, s);
      AfterSafeChar(c, v + s);
      Regroup(c, v, w, s);
      Regroup(c, v, w, Replaced(s));
      Regroup(c, v, w, Filter(s));
    }
  }

  lemma Regroup(c: char, v: string, w: string, s: string)
    requires w == [c] + v
    ensures w + s == [c] + (v + s)
  {}

  lemma {:induction false} TrimAfterWord(w: string, s: string)
    requires AllSafe(w) && w != ""
    ensures TrimRight(w + s) == w + TrimRight(s) && TrimLeft(w + s) == w + s
  {
    if s == "" {
      assert w + s == w;
    } else {
      TrimAfterWord(w, s[..|s| - 1]);
      assert (w + s)[..|w + s| - 1] == w + s[..|s| - 1];
    }
  }

  lemma {:induction false} TrimRightFront(c: char, s: string)
    ensures TrimRight([c] + s) == if TrimRight(s) == "" && IsSpace(c) then "" else [c] + TrimRight(s)
  {
    if s == "" {
      assert [c] + s == [c] && [c][..0] == "";
    } else if IsSpace(s[|s| - 1]) {
      assert ([c] + s)[..|[c] + s| - 1] == [c] + s[..|s| - 1];
      TrimRightFront(c, s[..|s| - 1]);
    }
  }

  lemma {:induction false} TrimsCommute(s: string)
    ensures TrimLeft(TrimRight(s)) == TrimRight(TrimLeft(s))
  {
    if s != "" {
      TrimRightFront(s[0], s[1..]);
      assert s == [s[0]] + s[1..];
      if IsSpace(s[0]) {
        TrimsCommute(s[1..]);
        var t := TrimRight(s[1..]);
        assert t != "" ==> ([s[0]] + t)[1..] == t;
      }
    }
  }

  lemma {:induction false} TrimRightLower(s: string)
    ensures TrimRight(ToLower(s)) == ToLower(TrimRight(s))
  {
    if s != "" && IsSpace(s[|s| - 1]) {
      TrimRightLower(s[..|s| - 1]);
      assert ToLower(s)[..|s| - 1] == ToLower(s[..|s| - 1]);
    }
  }

  /** One underscore for each blank in the white space in front. */
  function Blanks(s: string): string {
    if s == "" || !IsSpace(s[0]) then "" else (if s[0] == ' ' then "_" else "") + Blanks(s[1..])
  }

  lemma {:induction false} BlanksLower(s: string)
    ensures Blanks(ToLower(s)) == Blanks(s)
  {
    if s != "" && IsSpace(s[0]) {
      BlanksLower(s[1..]);
      assert ToLower(s)[1..] == ToLower(s[1..]);
    }
  }

  lemma {:induction false} BlanksAreUnderscores(s: string)
    ensures forall i :: 0 <= i < |Blanks(s)| ==> Blanks(s)[i] == '_'
  {
    if s != "" && IsSpace(s[0]) {
      BlanksAreUnderscores(s[1..]);
    }
  }

  lemma SpaceReplaced(c: char, s: string)
    requires IsSpace(c)
    ensures Filter(Replaced([c] + s)) == (if c == ' ' then "_" else "") + Filter(Replaced(s))
  {
    var (d, r) := (if c == ' ' then '_' else c, Replaced(s));
    assert ([c] + s)[1..] == s && Substitute(c) == [d];
    assert Replaced([c] + s) == [d] + r;
    assert ([d] + r)[1..] == r;
    assert Filter([d] + r) == (if Kept(d) then [d] else "") + Filter(r);
  }

  lemma Appended(a: string, b: string, c: string)
    ensures (a + b) + c == a + (b + c)
  {}

  /** Blanks in front are replaced, other white space in front is discarded. */
  lemma {:induction false} BlanksInFront(s: string)
    ensures Filter(Replaced(s)) == Blanks(s) + Filter(Replaced(TrimLeft(s)))
  {
    if s != "" && IsSpace(s[0]) {
      var (b, t) := (if s[0] == ' ' then "_" else "", s[1..]);
      BlanksInFront(t);
      SpaceReplaced(s[0], t);
      Appended(b, Blanks(t), Filter(Replaced(TrimLeft(t))));
      assert s == [s[0]] + t;
    }
  }

  /** The blanks in front of what is left of a name without the white space at its end: none, if there is
      nothing else in it. */
  function Lead(s: string): string {
    Blanks(TrimRight(s))
  }

  lemma TailOfSafe(s: string)
    ensures Filter(Replaced(TrimRight(ToLower(s)))) == Lead(s) + Safe(s)
  {
    BlanksInFront(TrimRight(ToLower(s)));
    TrimsCommute(ToLower(s));
    TrimRightLower(s);
    BlanksLower(TrimRight(s));
  }

  /** Sanitising what follows a safe word: only the white space in front of it is treated differently. */
  lemma SafeAfterWord(w: string, s: string)
    requires AllSafe(w) && '.' !in w && w != ""
    ensures Safe(w + s) == w + (Lead(s) + Safe(s))
  {
    LowerIsFixed(w);
    assert ToLower(w + s) == w + ToLower(s);
    TrimAfterWord(w, ToLower(s));
    AfterSafeWord(w, TrimRight(ToLower(s)));
    AfterSafeWord(w, Replaced(TrimRight(ToLower(s))));
    TailOfSafe(s);
  }

  // ---------------------------------------------------------------- what is kept and what is replaced

  /** Small letters, digits and `_@-.`, no two dots next to each other: what domain names are made of. */
  predicate IsDomainLike(s: string) {
    && (forall i :: 0 <= i < |s| ==>
          'a' <= s[i] <= 'z' || '0' <= s[i] <= '9' || s[i] == '_' || s[i] == '@' || s[i] == '-' || s[i] == '.')
    && (forall i :: 0 <= i < |s| - 1 ==> s[i] != '.' || s[i + 1] != '.')
  }

  /** Domain-like names are kept as they are. */
  lemma SafeKeepsDomains(s: string)
    requires IsDomainLike(s)
    ensures Safe(s) == s
  {
    SafeOfSafe(s);
  }

  /** What a single character between domain-like strings becomes. */
  function ReplacementOf(c: char): string {
    if c == ' ' then "_"
    else if c == '+' then "_plus_"
    else if c == '*' then "wildcard_"
    else if c == ':' then "-"
    else if IsDomainLike([c]) then [c]
    else if 'A' <= c <= 'Z' then [(c as int - 'A' as int + 'a' as int) as char]
    else ""
  }

  lemma {:induction false} AfterDomainLike(w: string, s: string)
    requires AllSafe(w) && NoDoubleDot(w) && (s == "" || s[0] != '.')
    ensures Replaced(w + s) == w + Replaced(s) && Filter(w + s) == w + Filter(s)
  {
    if w == "" {
      assert w + s == s;
    } else {
      var (c, v) := (w[0], w[1..]);
      DotInFront(c, v);
      assert w == [c] + v;
      AfterDomainLike(v, s);
      AfterOneChar(c, v + s);
      Regroup(c, v, w, s);
      Regroup(c, v, w, Replaced(s));
      Regroup(c, v, w, Filter(s));
    }
  }

  lemma AfterOneChar(c: char, s: string)
    requires IsSafeChar(c) && !(c == '.' && s != "" && s[0] == '.')
    ensures Replaced([c] + s) == [c] + Replaced(s) && Filter([c] + s) == [c] + Filter(s)
  {
    assert ([c] + s)[1..] == s;
  }

  lemma {:induction false} TrimLeftKeeps(s: string)
    requires s != "" && !IsSpace(s[0])
    ensures TrimLeft(s) == s
  {}

  lemma FilterOfReplacement(c: char, v: string)
    requires c != '.' && IsLower([c])
    ensures Replaced([c] + v) == Substitute(c) + Replaced(v)
    ensures Filter(Substitute(c)) == ReplacementOf(c)
  {
    assert ([c] + v)[1..] == v;
    assert [c][0] == c;
    FilterOfWord(Substitute(c));
    assert IsDomainLike([c]) <==> Kept(c);
  }

  lemma FilterOfWord(w: string)
    ensures AllSafe(w) ==> Filter(w) == w
    ensures |w| == 1 ==> Filter(w) == if Kept(w[0]) then w else ""
  {
    FilterOfKept(w);
    if |w| == 1 {
      assert w[1..] == "" && w == [w[0]];
    }
  }

  lemma {:induction false} FilterConcat(a: string, b: string)
    ensures Filter(a + b) == Filter(a) + Filter(b)
  {
    if a == "" {
      assert a + b == b;
    } else {
      FilterConcat(a[1..], b);
      FilterFront(a[0], a[1..]);
      FilterFront(a[0], a[1..] + b);
      assert a == [a[0]] + a[1..];
      Regroup(a[0], a[1..], a, b);
      Appended(if Kept(a[0]) then [a[0]] else "", Filter(a[1..]), Filter(b));
    }
  }

  lemma FilterFront(c: char, s: string)
    ensures Filter([c] + s) == (if Kept(c) then [c] else "") + Filter(s)
  {
    assert ([c] + s)[1..] == s;
  }

  lemma ReplacedBetween(u: string, c: char, v: string)
    requires IsDomainLike(u) && IsDomainLike(v) && c != '.' && IsLower([c])
    ensures Filter(Replaced(u + ([c] + v))) == u + (ReplacementOf(c) + v)
  {
    AfterDomainLike(u, [c] + v);
    FilterOfReplacement(c, v);
    ReplacedOfSafe(v);
    FilterConcat(u, Substitute(c) + v);
    FilterConcat(Substitute(c), v);
    FilterOfWord(u);
    FilterOfWord(v);
  }

  /** One character between domain-like strings is replaced as told, whatever it is. */
  lemma SafeReplacesOne(u: string, c: char, v: string)
    requires IsDomainLike(u) && IsDomainLike(v) && c != '.'
    requires IsSpace(c) ==> u != "" && v != ""
    ensures Safe(u + ([c] + v)) == u + (ReplacementOf(c) + v)
  {
    var d := LowerChar(c);
    LowerBetween(u, c, v);
    NotTrimmed(u + ([d] + v));
    ReplacedBetween(u, d, v);
  }

  lemma LowerBetween(u: string, c: char, v: string)
    requires IsDomainLike(u) && IsDomainLike(v)
    ensures ToLower(u + ([c] + v)) == u + ([LowerChar(c)] + v)
    ensures IsLower([LowerChar(c)]) && ReplacementOf(LowerChar(c)) == ReplacementOf(c)
  {
    LowerIsFixed(u);
    LowerIsFixed(v);
    assert [c][0] == c && [LowerChar(c)][0] == LowerChar(c);
  }

  lemma NotTrimmed(s: string)
    requires s != "" && !IsSpace(s[0]) && !IsSpace(s[|s| - 1])
    ensures TrimRight(TrimLeft(s)) == s
  {}

  /** Two adjacent dots between domain-like strings are dropped. */
  lemma SafeDropsDots(u: string, v: string)
    requires IsDomainLike(u) && IsDomainLike(v) && u != "" && v != "" && u[|u| - 1] != '.'
    ensures Safe(u + (".." + v)) == u + v
  {
    var s := u + (".." + v);
    LowerIsFixed(s);
    NotTrimmed(s);
    DotsDropped(u, v);
    FilterConcat(u, v);
    ReplacedOfSafe(v);
    FilterOfWord(u);
    FilterOfWord(v);
  }

  lemma {:induction false} DotsDropped(u: string, v: string)
    requires AllSafe(u) && NoDoubleDot(u) && (u == "" || u[|u| - 1] != '.')
    ensures Replaced(u + (".." + v)) == u + Replaced(v)
  {
    var t := ".." + v;
    if u == "" {
      assert u + t == t && t[2..] == v;
    } else {
      var (c, r) := (u[0], u[1..]);
      DotInFront(c, r);
      assert u == [c] + r;
      DotsDropped(r, v);
      AfterOneChar(c, r + t);
      Regroup(c, r, u, t);
      Regroup(c, r, u, Replaced(v));
    }
  }

  /** White space at either end is trimmed. */
  lemma SafeTrims(c: char, s: string)
    requires c == ' ' || c == '\t' || c == '\n' || c == '\U{000B}' || c == '\U{000C}' || c == '\r'
    ensures Safe([c] + s) == Safe(s) == Safe(s + [c])
  {
    var t := ToLower(s);
    assert ToLower([c] + s) == [c] + t && ([c] + t)[1..] == t;
    assert ToLower(s + [c]) == t + [c] && (t + [c])[..|t|] == t;
    TrimsCommute(t + [c]);
    TrimsCommute(t);
    assert TrimLeft([c] + t) == TrimLeft(t) && TrimRight(t + [c]) == TrimRight(t);
  }

  // ---------------------------------------------------------------- cleaning of paths

  /** A path's parts so far and the next part: empty parts and single dots go, two dots take the part
      before them away. */
  function Push(parts: seq<string>, part: string): seq<string> {
    if part == "" || part == "." then parts
    else if part == ".." && parts != [] && parts[|parts| - 1] != ".." then parts[..|parts| - 1]
    else parts + [part]
  }

  function Reduced(parts: seq<string>): seq<string> {
    if parts == [] then [] else Push(Reduced(parts[..|parts| - 1]), parts[|parts| - 1])
  }

  function Rendered(parts: seq<string>): string {
    if parts == [] then "." else Join(parts, '/')
  }

  /** `path.Clean` of a relative path, which all keys are. */
  function Clean(path: string): string {
    Rendered(Reduced(Split(path, '/')))
  }

  /** `path.Join` of a non-empty relative path and a component. */
  function PathJoin(path: string, component: string): string {
    if component == "" then Clean(path) else Clean(path + "/" + component)
  }

  lemma {:induction false} JoinAppend(parts: seq<string>, part: string, sep: char)
    requires parts != []
    ensures Join(parts + [part], sep) == Join(parts, sep) + [sep] + part
  {
    assert (parts + [part])[1..] == parts[1..] + [part];
    if |parts| > 1 {
      JoinAppend(parts[1..], part, sep);
    } else {
      assert (parts + [part])[1..] == [part];
    }
  }

  lemma SplitAppend(s: string, part: string, sep: char)
    requires sep !in part
    ensures Split(s + [sep] + part, sep) == Split(s, sep) + [part]
  {
    JoinSplit(s, sep);
    JoinAppend(Split(s, sep), part, sep);
    SplitJoin(Split(s, sep) + [part], sep);
  }

  /** Parts that cleaning leaves alone. */
  ghost predicate IsClean(parts: seq<string>) {
    Reduced(parts) == parts && forall p :: p in parts ==> '/' !in p
  }

  lemma CleanOfRendered(parts: seq<string>)
    requires IsClean(parts)
    ensures Reduced(Split(Rendered(parts), '/')) == parts
  {
    if parts == [] {
      SplitPart(".", '/');
      assert Reduced(["."][..0]) == [];
    } else {
      SplitJoin(parts, '/');
    }
  }

  lemma {:induction false} ReducedShrinks(parts: seq<string>)
    ensures |Reduced(parts)| <= |parts|
  {
    if parts != [] {
      ReducedShrinks(parts[..|parts| - 1]);
    }
  }

  lemma ReducedAppend(parts: seq<string>, part: string)
    ensures Reduced(parts + [part]) == Push(Reduced(parts), part)
  {
    assert (parts + [part])[..|parts|] == parts;
  }

  /** All but the last of clean parts are clean: had one been dropped, there would be fewer. */
  lemma PushKeepsClean(parts: seq<string>, part: string)
    requires IsClean(parts) && '/' !in part
    ensures IsClean(Push(parts, part))
  {
    ReducedAppend(parts, part);
    if parts != [] {
      var n := |parts| - 1;
      ReducedShrinks(parts[..n]);
      ReducedAppend(parts[..n], parts[n]);
      assert parts == parts[..n] + [parts[n]];
    }
  }

  /** Joining a component to a clean path pushes it on the path's parts. */
  lemma PathJoinPushes(parts: seq<string>, part: string)
    requires IsClean(parts) && '/' !in part
    ensures PathJoin(Rendered(parts), part) == Rendered(Push(parts, part))
    ensures IsClean(Push(parts, part))
  {
    CleanOfRendered(parts);
    PushKeepsClean(parts, part);
    if part != "" {
      SplitAppend(Rendered(parts), part, '/');
      ReducedAppend(Split(Rendered(parts), '/'), part);
    }
  }

  // ---------------------------------------------------------------- keys of a site's assets

  const PREFIX := "certificates"

  datatype Asset = Crt | Key | Meta

  function Extension(a: Asset): string {
    match a
    case Crt => ".crt"
    case Key => ".key"
    case Meta => ".json"
  }

  function CertsPrefix(issuerKey: string): string {
    PathJoin(PREFIX, Safe(issuerKey))
  }

  function CertsSitePrefix(issuerKey: string, domain: string): string {
    PathJoin(CertsPrefix(issuerKey), Safe(domain))
  }

  function SiteKey(issuerKey: string, domain: string, a: Asset): string {
    PathJoin(CertsSitePrefix(issuerKey, domain), Safe(domain) + Extension(a))
  }

  /** A component that cleaning drops. */
  predicate Vanishes(part: string) {
    part == "" || part == "."
  }

  predicate Ordinary(part: string) {
    !Vanishes(part) && part != ".."
  }

  /** The folder, as parts, that an issuer's and a site's sanitised names lead to. */
  function FolderOf(issuer: string, site: string): seq<string> {
    if Ordinary(site) then IssuerParts(issuer) + [site]
    else if Vanishes(site) then IssuerParts(issuer)
    else if Ordinary(issuer) then [PREFIX] else if Vanishes(issuer) then [] else [".."]
  }

  function IssuerParts(issuer: string): seq<string> {
    if Ordinary(issuer) then [PREFIX, issuer] else if Vanishes(issuer) then [PREFIX] else []
  }

  lemma NoSlash(s: string)
    ensures '/' !in Safe(s)
  {
    SafeAlphabet(s);
  }

  lemma PrefixParts()
    ensures IsClean([PREFIX]) && Rendered([PREFIX]) == PREFIX
  {
    assert [PREFIX][..0] == [];
  }

  lemma FolderParts(issuer: string, site: string)
    requires '/' !in issuer && '/' !in site
    ensures PathJoin(PathJoin(PREFIX, issuer), site) == Rendered(FolderOf(issuer, site))
    ensures IsClean(FolderOf(issuer, site))
  {
    PrefixParts();
    PathJoinPushes([PREFIX], issuer);
    assert Push([PREFIX], issuer) == IssuerParts(issuer);
    PathJoinPushes(IssuerParts(issuer), site);
    assert Push(IssuerParts(issuer), site) == FolderOf(issuer, site);
  }

  lemma FileNameIsOrdinary(site: string, a: Asset)
    requires '/' !in site
    ensures var file := site + Extension(a); '/' !in file && Ordinary(file)
  {
    var file := site + Extension(a);
    assert file[|file| - 1] == Extension(a)[|Extension(a)| - 1];
  }

  /** The parts of an asset's key: its folder, then its file name. */
  lemma SiteKeyParts(i: string, d: string, a: Asset)
    ensures Split(SiteKey(i, d, a), '/') == FolderOf(Safe(i), Safe(d)) + [Safe(d) + Extension(a)]
  {
    NoSlash(i);
    NoSlash(d);
    FileInFolder(Safe(i), Safe(d), a);
  }

  lemma FileInFolder(issuer: string, site: string, a: Asset)
    requires '/' !in issuer && '/' !in site
    ensures Split(PathJoin(PathJoin(PathJoin(PREFIX, issuer), site), site + Extension(a)), '/') ==
            FolderOf(issuer, site) + [site + Extension(a)]
  {
    var (folder, file) := (FolderOf(issuer, site), site + Extension(a));
    FolderParts(issuer, site);
    FileNameIsOrdinary(site, a);
    PathJoinPushes(folder, file);
    SplitJoin(folder + [file], '/');
  }

  /** The keys of a domain-like name and issuer, spelled out. */
  lemma SiteKeySpelled(i: string, d: string)
    requires IsDomainLike(i) && IsDomainLike(d) && i != "" && i != "." && d != "" && d != "."
    ensures SiteKey(i, d, Crt) == "certificates/" + i + "/" + d + "/" + d + ".crt"
    ensures SiteKey(i, d, Key) == "certificates/" + i + "/" + d + "/" + d + ".key"
    ensures SiteKey(i, d, Meta) == "certificates/" + i + "/" + d + "/" + d + ".json"
  {
    SafeKeepsDomains(i);
    SafeKeepsDomains(d);
    NotTwoDots(i);
    NotTwoDots(d);
    SpelledOut(i, d, Crt, ".crt");
    SpelledOut(i, d, Key, ".key");
    SpelledOut(i, d, Meta, ".json");
  }

  /** Issuers that sanitise to nothing or to one dot share their keys, above all issuers' folders. */
  lemma VanishingIssuersShare(d: string, a: Asset)
    requires IsDomainLike(d) && d != "" && d != "."
    ensures Safe("") == "" && Safe(".") == "."
    ensures Split(SiteKey("", d, a), '/') == ["certificates", d, d + Extension(a)]
    ensures SiteKey("", d, a) == SiteKey(".", d, a)
  {
    SafeKeepsDomains("");
    SafeKeepsDomains(".");
    SafeKeepsDomains(d);
    NotTwoDots(d);
    SiteKeyParts("", d, a);
    VanishedFolder(d, d + Extension(a));
    SiteKeysDiffer("", d, a, ".", d, a);
  }

  lemma VanishedFolder(d: string, file: string)
    requires Ordinary(d)
    ensures FolderOf("", d) + [file] == ["certificates", d, file]
  {}

  lemma NotTwoDots(s: string)
    requires IsDomainLike(s)
    ensures s != ".."
  {
    assert ".."[0] == '.' && ".."[0 + 1] == '.';
  }

  lemma SpelledOut(i: string, d: string, a: Asset, ext: string)
    requires Safe(i) == i && Safe(d) == d && Ordinary(i) && Ordinary(d) && Extension(a) == ext
    ensures SiteKey(i, d, a) == "certificates/" + i + "/" + d + "/" + d + ext
  {
    var key := SiteKey(i, d, a);
    SiteKeyParts(i, d, a);
    JoinSplit(key, '/');
    assert FolderOf(i, d) + [d + ext] == ["certificates", i, d, d + ext];
    JoinOfFour("certificates", i, d, d + ext);
    Flattened(i, d, ext);
  }

  lemma Flattened(i: string, d: string, ext: string)
    ensures "certificates" + "/" + (i + "/" + (d + "/" + (d + ext))) == "certificates/" + i + "/" + d + "/" + d + ext
  {}

  lemma JoinOfFour(w: string, x: string, y: string, z: string)
    ensures Join([w, x, y, z], '/') == w + "/" + (x + "/" + (y + "/" + z))
  {
    var (p, q, r) := ([x, y, z], [y, z], [z]);
    assert [w, x, y, z][1..] == p && p[1..] == q && q[1..] == r;
    assert Join(r, '/') == z;
    assert Join(q, '/') == y + ['/'] + z;
    assert Join(p, '/') == x + ['/'] + Join(q, '/');
    assert "/" == ['/'];
  }

  lemma FileNamesDiffer(s: string, a: Asset, s': string, a': Asset)
    ensures s + Extension(a) == s' + Extension(a') <==> s == s' && a == a'
  {
    var (f, f') := (s + Extension(a), s' + Extension(a'));
    if f == f' {
      assert f[|f| - 1] == Extension(a)[|Extension(a)| - 1] && f'[|f'| - 1] == Extension(a')[|Extension(a')| - 1];
      assert a == a';
      assert s == f[..|f| - |Extension(a)|] == s';
    }
  }

  /** Whether two pairs of issuer and domain share their keys: they sanitise to the same components, or
      the issuers' components vanish, or the domain's two dots take any ordinary issuer away. */
  predicate SameSite(i: string, d: string, i': string, d': string) {
    && Safe(d) == Safe(d')
    && (|| Safe(i) == Safe(i')
        || (Vanishes(Safe(i)) && Vanishes(Safe(i')))
        || (Safe(d) == ".." && Ordinary(Safe(i)) && Ordinary(Safe(i'))))
  }

  /** Exactly when two asset keys are equal. */
  lemma SiteKeysDiffer(i: string, d: string, a: Asset, i': string, d': string, a': Asset)
    ensures SiteKey(i, d, a) == SiteKey(i', d', a') <==> SameSite(i, d, i', d') && a == a'
  {
    var (file, file') := (Safe(d) + Extension(a), Safe(d') + Extension(a'));
    var (folder, folder') := (FolderOf(Safe(i), Safe(d)), FolderOf(Safe(i'), Safe(d')));
    SiteKeyParts(i, d, a);
    SiteKeyParts(i', d', a');
    JoinSplit(SiteKey(i, d, a), '/');
    JoinSplit(SiteKey(i', d', a'), '/');
    FileNamesDiffer(Safe(d), a, Safe(d'), a');
    assert (folder + [file])[|folder|] == file && (folder' + [file'])[|folder'|] == file';
    assert folder + [file] == folder' + [file'] <==> folder == folder' && file == file' by {
      if folder + [file] == folder' + [file'] {
        assert folder == (folder + [file])[..|folder|] == folder';
      }
    }
    if Safe(d) == Safe(d') {
      FoldersDiffer(Safe(i), Safe(i'), Safe(d));
    }
  }

  lemma FoldersDiffer(i: string, i': string, d: string)
    ensures FolderOf(i, d) == FolderOf(i', d) <==>
            i == i' || (Vanishes(i) && Vanishes(i')) || (d == ".." && Ordinary(i) && Ordinary(i'))
  {
    var (p, p') := (IssuerParts(i), IssuerParts(i'));
    assert p == p' <==> i == i' || (Vanishes(i) && Vanishes(i')) by {
      if p == p' && Ordinary(i) {
        assert p[1] == p'[1];
      }
    }
    if Ordinary(d) && p + [d] == p' + [d] {
      assert p == (p + [d])[..|p|] == p';
    }
  }

  /** An asset's key lies in the folder of its own issuer and site exactly when both components are
      ordinary, and below its own issuer's folder exactly when the issuer's is and the site's is not
      two dots. The replacement that is to prevent climbing runs before the filter. */
  lemma SiteKeyContained(i: string, d: string, a: Asset)
    ensures var parts := Split(SiteKey(i, d, a), '/');
            && (|parts| == 4 && parts[..3] == [PREFIX, Safe(i), Safe(d)] <==> Ordinary(Safe(i)) && Ordinary(Safe(d)))
            && (|parts| > 2 && parts[..2] == [PREFIX, Safe(i)] <==> Ordinary(Safe(i)) && Safe(d) != "..")
  {
    SiteKeyParts(i, d, a);
    var folder := FolderOf(Safe(i), Safe(d));
    var parts := folder + [Safe(d) + Extension(a)];
    assert parts[..|folder|] == folder;
    if |parts| > 2 {
      assert parts[..2] == folder[..2] && folder[..2][0] == folder[0] && folder[..2][1] == folder[1];
      assert Ordinary(Safe(i)) ==> folder[..2] == [PREFIX, Safe(i)];
    }
    if |parts| == 4 {
      assert parts[..3] == folder && folder[..2] == [PREFIX, Safe(i)];
    }
  }

  /** On names in which no discarded characters stand between two dots after replacement, plain ones
      among them, sanitising never yields two dots, so no key leaves its issuer's folder. */
  lemma NoClimbing(s: string)
    requires !DotsMeet(Unfiltered(s))
    ensures Safe(s) != ".."
  {
    SafeIdempotentIff(s);
    assert !NoDoubleDot("..") by {
      assert ".."[0] == '.' && ".."[0 + 1] == '.';
    }
  }

  const BAD_CHARS := "()[]{}<> \t\n\"\\!@#$%^&|;'+="

  /** Names that look like the subject of a certificate. */
  predicate SubjectQualifies(subj: string) {
    && TrimRight(TrimLeft(subj)) != ""
    && subj[0] != '.' && subj[|subj| - 1] != '.'
    && ('*' !in subj || "*." <= subj || subj == "*")
    && forall i :: 0 <= i < |subj| ==> subj[i] !in BAD_CHARS
  }

  lemma NotBad(c: char)
    requires 'a' <= c <= 'z' || '0' <= c <= '9' || c == '_' || c == '-' || c == '.' || c == '*'
    ensures c !in BAD_CHARS
  {
    var bad := BAD_CHARS;
    assert forall i :: 0 <= i < |bad| ==>
        !('a' <= bad[i] <= 'z' || '0' <= bad[i] <= '9' || bad[i] == '_' || bad[i] == '-' || bad[i] == '.' || bad[i] == '*');
  }

  /** Domain-like names without `@`, and wildcards made of them, qualify unless they begin or end with a dot. */
  lemma DomainsQualify(s: string)
    requires IsDomainLike(s) && s != "" && '@' !in s
    ensures SubjectQualifies(s) <==> s[0] != '.' && s[|s| - 1] != '.'
    ensures SubjectQualifies("*." + s) <==> s[|s| - 1] != '.'
    ensures !SubjectQualifies(s + "*")
  {
    var (w, v) := ("*." + s, s + "*");
    forall i | 0 <= i < |s| ensures s[i] !in BAD_CHARS && s[i] != '*' {
      NotBad(s[i]);
    }
    forall i | 0 <= i < |w| ensures w[i] !in BAD_CHARS {
      NotBad(w[i]);
    }
    assert TrimLeft(s) == s && TrimRight(s) == s && TrimLeft(w) == w && TrimRight(w) == w;
    assert v[|s|] == '*' && v[0] == s[0];
  }

  lemma SafeOfClimber()
    ensures Safe("/././") == ".."
  {
    var (x, y, z, u, v) := ("/././", "././", "/./", "./", "/");
    LowerIsFixed(x);
    assert TrimLeft(x) == x && TrimRight(x) == x;
    assert x[1..] == y && y[1..] == z && z[1..] == u && u[1..] == v && v[1..] == "";
    assert Replaced(v) == v && Filter(v) == "";
    assert Replaced(u) == u && Filter(u) == ".";
    assert Replaced(z) == z && Filter(z) == ".";
    assert Replaced(y) == y && Filter(y) == "..";
    assert Replaced(x) == x;
  }

  lemma ClimberQualifies()
    ensures SubjectQualifies("/././")
  {
    var (x, bad) := ("/././", BAD_CHARS);
    assert TrimLeft(x) == x && TrimRight(x) == x;
    assert forall i :: 0 <= i < |x| ==> x[i] == '/' || x[i] == '.';
    assert forall i :: 0 <= i < |bad| ==> bad[i] != '/' && bad[i] != '.' && bad[i] != '*';
  }

  /** A name that qualifies and yet climbs out of the folders of all ordinary issuers, to one key. */
  lemma KeysCollide(i: string, i': string, a: Asset)
    requires Ordinary(Safe(i)) && Ordinary(Safe(i'))
    ensures SubjectQualifies("/././")
    ensures SiteKey(i, "/././", a) == SiteKey(i', "/././", a)
    ensures Split(SiteKey(i, "/././", a), '/') == [PREFIX, ".." + Extension(a)]
  {
    SafeOfClimber();
    SiteKeysDiffer(i, "/././", a, i', "/././", a);
    SiteKeyParts(i, "/././", a);
    ClimberQualifies();
  }
}
