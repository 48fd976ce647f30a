/**
 * The parts of Go's `strings`, `unicode` and `sort` packages that the core
 * relies on: white-space trimming, the index of a character, and the
 * byte-wise (for valid UTF-8, code-point-wise) order `sort.Strings` uses.
 */
module Text {

  /** Go's `unicode.IsSpace`: the Unicode White_Space characters. */
  predicate IsSpace(c: char) {
    || c == '\t' || c == '\n' || c == '\U{000B}' || c == '\U{000C}' || c == '\r' || c == ' '
    || c == '\U{0085}' || c == '\U{00A0}' || c == '\U{1680}'
    || ('\U{2000}' <= c <= '\U{200A}')
    || c == '\U{2028}' || c == '\U{2029}' || c == '\U{202F}' || c == '\U{205F}' || c == '\U{3000}'
  }

  /** Only white space lies outside `s[a..b]`. */
  predicate SpaceOutside(s: string, a: nat, b: nat)
    requires a <= b <= |s|
  {
    (forall i :: 0 <= i < a ==> IsSpace(s[i])) && (forall i :: b <= i < |s| ==> IsSpace(s[i]))
  }

  /**
   * Go's `strings.TrimSpace`: drops white space at both ends, so that what is
   * left neither starts nor ends with it (`TrimSpaceSlice` shows that it is
   * the slice of `s` between that white space).
   */
  function TrimSpace(s: string): (r: string)
    ensures |r| <= |s|
    ensures r == [] || (!IsSpace(r[0]) && !IsSpace(r[|r| - 1]))
    ensures s != [] && !IsSpace(s[0]) ==> r != [] && r[0] == s[0]
    ensures s != [] && !IsSpace(s[0]) && !IsSpace(s[|s| - 1]) ==> r == s
  {
    if s != [] && IsSpace(s[0]) then TrimSpace(s[1..])
    else if s != [] && IsSpace(s[|s| - 1]) then
      assert |s| >= 2 ==> s[..|s| - 1][0] == s[0];
      TrimSpace(s[..|s| - 1])
    else s
  }

  /** What `TrimSpace` leaves is a slice of `s` with only white space outside it. */
  lemma {:induction false} TrimSpaceSlice(s: string)
    ensures exists a: nat, b: nat :: a <= b <= |s| && TrimSpace(s) == s[a..b] && SpaceOutside(s, a, b)
  {
    if s != [] && IsSpace(s[0]) {
      TrimSpaceSlice(s[1..]);
      var a: nat, b: nat :| a <= b <= |s| - 1 && TrimSpace(s[1..]) == s[1..][a..b] && SpaceOutside(s[1..], a, b);
      SpaceOutsideFirst(s, a, b);
    } else if s != [] && IsSpace(s[|s| - 1]) {
      TrimSpaceSlice(s[..|s| - 1]);
      var a: nat, b: nat :| a <= b <= |s| - 1 && TrimSpace(s[..|s| - 1]) == s[..|s| - 1][a..b] && SpaceOutside(s[..|s| - 1], a, b);
      SpaceOutsideLast(s, a, b);
    } else {
      assert TrimSpace(s) == s[0..|s|];
      assert SpaceOutside(s, 0, |s|);
    }
  }

  /** A slice of `s` without its leading white-space character, seen from `s`. */
  lemma SpaceOutsideFirst(s: string, a: nat, b: nat)
    requires s != [] && IsSpace(s[0]) && a <= b <= |s| - 1
    requires SpaceOutside(s[1..], a, b)
    ensures s[1..][a..b] == s[a + 1..b + 1] && SpaceOutside(s, a + 1, b + 1)
  {
    var t := s[1..];
    forall i | 0 <= i < a + 1 ensures IsSpace(s[i]) {
      if i > 0 { assert s[i] == t[i - 1]; }
    }
    forall i | b + 1 <= i < |s| ensures IsSpace(s[i]) {
      assert s[i] == t[i - 1];
    }
  }

  /** A slice of `s` without its trailing white-space character, seen from `s`. */
  lemma SpaceOutsideLast(s: string, a: nat, b: nat)
    requires s != [] && IsSpace(s[|s| - 1]) && a <= b <= |s| - 1
    requires SpaceOutside(s[..|s| - 1], a, b)
    ensures s[..|s| - 1][a..b] == s[a..b] && SpaceOutside(s, a, b)
  {
    var t := s[..|s| - 1];
    forall i | 0 <= i < a ensures IsSpace(s[i]) {
      assert s[i] == t[i];
    }
    forall i | b <= i < |s| ensures IsSpace(s[i]) {
      if i < |t| { assert s[i] == t[i]; }
    }
  }

  /** Trimming adds no character: one absent from `s` is absent from what is left. */
  lemma TrimSpaceKeepsOut(s: string, c: char)
    requires c !in s
    ensures c !in TrimSpace(s)
  {
    TrimSpaceSlice(s);
    var a: nat, b: nat :| a <= b <= |s| && TrimSpace(s) == s[a..b] && SpaceOutside(s, a, b);
    forall i | 0 <= i < b - a ensures s[a..b][i] != c {
      assert s[a..b][i] == s[a + i];
    }
  }

  /** Go's `strings.Index` for a one-character needle: -1 when absent. */
  function IndexOf(s: string, c: char): (r: int)
    ensures -1 <= r < |s|
    ensures r == -1 <==> c !in s
    ensures r >= 0 ==> s[r] == c && c !in s[..r]
  {
    if s == [] then -1
    else if s[0] == c then 0
    else
      var j := IndexOf(s[1..], c);
      assert s[1..][..j + 1] == s[1..j + 2] by { if j >= 0 { assert s[1..j + 2] == s[1..][..j + 1]; } }
      if j < 0 then -1 else j + 1
  }

  /** The index of the first occurrence, given that occurrence. */
  lemma IndexOfAt(s: string, c: char, j: nat)
    requires j < |s| && s[j] == c && c !in s[..j]
    ensures IndexOf(s, c) == j
  {
  }

  /** The strict lexicographic order on strings that `sort.Strings` sorts by. */
  predicate Less(a: string, b: string) {
    |b| > 0 && (|a| == 0 || a[0] < b[0] || (a[0] == b[0] && Less(a[1..], b[1..])))
  }

  lemma {:induction false} LessIrreflexive(a: string)
    ensures !Less(a, a)
  {
    if |a| > 0 { LessIrreflexive(a[1..]); }
  }

  lemma {:induction false} LessTransitive(a: string, b: string, c: string)
    requires Less(a, b) && Less(b, c)
    ensures Less(a, c)
  {
    if |a| > 0 && a[0] == b[0] && b[0] == c[0] {
      LessTransitive(a[1..], b[1..], c[1..]);
    }
  }

  lemma {:induction false} LessTotal(a: string, b: string)
    requires a != b
    ensures Less(a, b) || Less(b, a)
  {
    if |a| > 0 && |b| > 0 && a[0] == b[0] {
      assert a == [a[0]] + a[1..] && b == [b[0]] + b[1..];
      LessTotal(a[1..], b[1..]);
    }
  }

  predicate StrictlySorted(s: seq<string>) {
    forall i, j :: 0 <= i < j < |s| ==> Less(s[i], s[j])
  }

  /** Inserts a new string into a strictly sorted sequence, keeping it sorted. */
  function Insert(s: seq<string>, x: string): (r: seq<string>)
    requires StrictlySorted(s) && x !in s
    ensures StrictlySorted(r)
    ensures multiset(r) == multiset(s) + multiset{x}
  {
    if s == [] then [x]
    else if Less(x, s[0]) then
      forall j | 0 < j < |s| ensures Less(x, s[j]) { LessTransitive(x, s[0], s[j]); }
      [x] + s
    else
      LessTotal(x, s[0]);
      var t := Insert(s[1..], x);
      assert multiset(t) == multiset(s[1..]) + multiset{x};
      forall j | 0 <= j < |t| ensures Less(s[0], t[j]) {
        assert t[j] in multiset(t);
      }
      assert s == [s[0]] + s[1..];
      [s[0]] + t
  }

  /** A sorted listing of distinct strings (stands in for `sort.Strings`). */
  method SortStrings(a: seq<string>) returns (r: seq<string>)
    requires forall i, j :: 0 <= i < j < |a| ==> a[i] != a[j]
    ensures StrictlySorted(r)
    ensures multiset(r) == multiset(a)
  {
    r := [];
    for i := 0 to |a|
      invariant StrictlySorted(r)
      invariant multiset(r) == multiset(a[..i])
    {
      assert a[i] !in a[..i];
      assert a[i] !in multiset(r);
      r := Insert(r, a[i]);
      assert a[..i + 1] == a[..i] + [a[i]];
    }
    assert a[..|a|] == a;
  }

  /** The least element of a non-empty finite set of strings. */
  ghost function Least(s: set<string>): (m: string)
    requires s != {}
    ensures m in s && forall x :: x in s && x != m ==> Less(m, x)
    decreases s
  {
    var y :| y in s;
    if s == {y} then y
    else
      var z := Least(s - {y});
      if Less(y, z) then
        forall x | x in s && x != y ensures Less(y, x) {
          if x != z { LessTransitive(y, z, x); }
        }
        y
      else
        LessTotal(y, z);
        z
  }

  /** The strictly sorted sequence holding exactly the strings of `s`. */
  ghost function SortedKeys(s: set<string>): (r: seq<string>)
    ensures StrictlySorted(r) && |r| == |s|
    ensures forall x :: x in r <==> x in s
    decreases s
  {
    if s == {} then []
    else
      var m := Least(s);
      var rest := SortedKeys(s - {m});
      forall j | 0 <= j < |rest| ensures Less(m, rest[j]) { assert rest[j] in s - {m}; }
      [m] + rest
  }

  /** Two strictly sorted sequences with the same elements are the same sequence. */
  lemma {:induction false} SortedUnique(a: seq<string>, b: seq<string>)
    requires StrictlySorted(a) && StrictlySorted(b)
    requires forall x :: x in a <==> x in b
    ensures a == b
  {
    if a != [] { assert a[0] in b; }
    if b != [] { assert b[0] in a; }
    if a != [] && b != [] {
      if a[0] != b[0] {
        var i :| 0 <= i < |a| && a[i] == b[0];
        var j :| 0 <= j < |b| && b[j] == a[0];
        assert Less(a[0], b[0]) by { assert i > 0; }
        assert Less(b[0], a[0]) by { assert j > 0; }
        LessTransitive(a[0], b[0], a[0]);
        LessIrreflexive(a[0]);
      }
      forall x ensures x in a[1..] <==> x in b[1..] {
        if x in a[1..] {
          var i :| 1 <= i < |a| && a[i] == x;
          assert x != a[0] by { LessIrreflexive(x); }
          assert x in b;
        }
        if x in b[1..] {
          var j :| 1 <= j < |b| && b[j] == x;
          assert x != b[0] by { LessIrreflexive(x); }
          assert x in a;
        }
      }
      SortedUnique(a[1..], b[1..]);
      assert a == [a[0]] + a[1..] && b == [b[0]] + b[1..];
    }
  }
}
