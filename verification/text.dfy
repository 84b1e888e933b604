/**
 String helpers shared by both plugins: ASCII case folding, substring
 occurrence, Python's literal `str.replace`, and `re.sub` with an empty
 replacement, described by the length of the match found at each position.
 */
module Text {
  import opened Base

  /** ASCII lower-casing: the case folding IGNORECASE applies to byte-string patterns. */
  function Lower(c: char): char
  {
    if 'A' <= c <= 'Z' then (c as int + 32) as char else c
  }

  function LowerAll(s: string): string
  {
    seq(|s|, k requires 0 <= k < |s| => Lower(s[k]))
  }

  predicate EqualIgnoringCase(a: string, b: string)
  {
    LowerAll(a) == LowerAll(b)
  }

  /** The characters `\s` matches in a byte-string pattern. */
  predicate IsWhitespace(c: char)
  {
    c == ' ' || c == '\t' || c == '\n' || c == '\r' || c as int == 11 || c as int == 12
  }

  predicate StartsWith(s: string, p: string)
  {
    |p| <= |s| && s[..|p|] == p
  }

  predicate OccursAt(s: string, p: string, i: int)
  {
    0 <= i && i + |p| <= |s| && s[i..i + |p|] == p
  }

  predicate Contains(s: string, p: string)
  {
    exists i | 0 <= i <= |s| - |p| :: OccursAt(s, p, i)
  }

  predicate OccursAtIgnoringCase(s: string, p: string, i: int)
  {
    0 <= i && i + |p| <= |s| && EqualIgnoringCase(s[i..i + |p|], p)
  }

  /** `re.search(p, s, re.IGNORECASE)` for a pattern without metacharacters. */
  predicate ContainsIgnoringCase(s: string, p: string)
  {
    exists i | 0 <= i <= |s| - |p| :: OccursAtIgnoringCase(s, p, i)
  }

  /** Length of the longest prefix of `s` whose characters are all in the class. */
  function RunLength(s: string, inClass: char -> bool): (n: nat)
    ensures n <= |s|
    ensures forall k :: 0 <= k < n ==> inClass(s[k])
    ensures n == |s| || !inClass(s[n])
  {
    if s == [] || !inClass(s[0]) then 0 else 1 + RunLength(s[1..], inClass)
  }

  /** The run is exactly `x` when `x` is in the class and `y` does not start in it. */
  lemma {:induction false} RunLengthOf(x: string, y: string, inClass: char -> bool)
    requires forall k | 0 <= k < |x| :: inClass(x[k])
    requires y == [] || !inClass(y[0])
    ensures RunLength(x + y, inClass) == |x|
  {
    assert forall k | 0 <= k < |x| :: (x + y)[k] == x[k];
    assert y != [] ==> (x + y)[|x|] == y[0];
  }

  /* ---------------------------------------------------------------------
     Python's `s.replace(p, r)`: every non-overlapping occurrence, scanning
     left to right.
     --------------------------------------------------------------------- */

  function ReplaceAll(s: string, p: string, r: string): string
    requires p != []
    decreases |s|
  {
    if |s| < |p| then s
    else if s[..|p|] == p then r + ReplaceAll(s[|p|..], p, r)
    else [s[0]] + ReplaceAll(s[1..], p, r)
  }

  /** Python's `s.count(p)`: the number of non-overlapping occurrences, left to right. */
  function CountOccurrences(s: string, p: string): nat
    requires p != []
    decreases |s|
  {
    if |s| < |p| then 0
    else if s[..|p|] == p then 1 + CountOccurrences(s[|p|..], p)
    else CountOccurrences(s[1..], p)
  }

  lemma {:induction false} ReplaceAllLength(s: string, p: string, r: string)
    requires p != []
    ensures |ReplaceAll(s, p, r)| == |s| + CountOccurrences(s, p) * (|r| - |p|)
    decreases |s|
  {
    var d := |r| - |p|;
    if |s| < |p| {
    } else if s[..|p|] == p {
      var rest := s[|p|..];
      ReplaceAllLength(rest, p, r);
      var c := CountOccurrences(rest, p);
      assert CountOccurrences(s, p) == 1 + c;
      assert |ReplaceAll(s, p, r)| == |r| + |ReplaceAll(rest, p, r)|;
      OneMore(c, d);
    } else {
      ReplaceAllLength(s[1..], p, r);
      assert CountOccurrences(s, p) == CountOccurrences(s[1..], p);
      assert |ReplaceAll(s, p, r)| == 1 + |ReplaceAll(s[1..], p, r)|;
    }
  }

  lemma OneMore(c: int, d: int)
    ensures (1 + c) * d == d + c * d
  {
  }

  lemma {:induction false} ContainsTail(s: string, p: string)
    requires s != []
    ensures Contains(s[1..], p) ==> Contains(s, p)
  {
    if Contains(s[1..], p) {
      var i :| 0 <= i <= |s[1..]| - |p| && OccursAt(s[1..], p, i);
      assert s[i + 1..i + 1 + |p|] == s[1..][i..i + |p|];
      assert OccursAt(s, p, i + 1);
    }
  }

  /** An occurrence not at the front of `s` is an occurrence in `s[1..]`. */
  lemma {:induction false} ContainsShift(s: string, p: string)
    requires s != [] && p != []
    requires !StartsWith(s, p)
    ensures Contains(s, p) ==> Contains(s[1..], p)
  {
    if Contains(s, p) {
      var i :| 0 <= i <= |s| - |p| && OccursAt(s, p, i);
      assert i != 0;
      assert s[1..][i - 1..i - 1 + |p|] == s[i..i + |p|];
      assert OccursAt(s[1..], p, i - 1);
    }
  }

  lemma {:induction false} CountPositiveWhenContains(s: string, p: string)
    requires p != []
    ensures Contains(s, p) ==> CountOccurrences(s, p) > 0
    decreases |s|
  {
    if |s| >= |p| && s[..|p|] != p {
      ContainsShift(s, p);
      CountPositiveWhenContains(s[1..], p);
    }
  }

  /** Replacing with something shorter is the identity exactly on texts
      without an occurrence. */
  lemma {:induction false} ReplaceAllIdentity(s: string, p: string, r: string)
    requires p != [] && |r| < |p|
    ensures ReplaceAll(s, p, r) == s <==> !Contains(s, p)
    decreases |s|
  {
    if |s| < |p| {
    } else if s[..|p|] == p {
      assert OccursAt(s, p, 0);
      ReplaceAllNotLonger(s[|p|..], p, r);
    } else {
      ReplaceAllIdentity(s[1..], p, r);
      ReplaceAllStep(s, p, r);
      ContainsShift(s, p);
      ContainsTail(s, p);
    }
  }

  lemma {:induction false} ReplaceAllNotLonger(s: string, p: string, r: string)
    requires p != [] && |r| <= |p|
    ensures |ReplaceAll(s, p, r)| <= |s|
    decreases |s|
  {
    if |s| < |p| {
    } else if s[..|p|] == p {
      ReplaceAllNotLonger(s[|p|..], p, r);
    } else {
      ReplaceAllNotLonger(s[1..], p, r);
    }
  }

  lemma ReplaceAllStep(s: string, p: string, r: string)
    requires p != [] && |s| >= |p|
    requires s[..|p|] != p
    ensures ReplaceAll(s, p, r) == s <==> ReplaceAll(s[1..], p, r) == s[1..]
  {
    var rest := ReplaceAll(s[1..], p, r);
    assert ReplaceAll(s, p, r) == [s[0]] + rest;
    assert s == [s[0]] + s[1..];
    if [s[0]] + rest == s {
      assert rest == ([s[0]] + rest)[1..];
    }
  }

  /** A stretch where no occurrence starts is copied through unchanged. */
  lemma {:induction false} ReplaceAllCopiesPrefix(a: string, b: string, p: string, r: string)
    requires p != []
    requires forall i | 0 <= i < |a| :: !OccursAt(a + b, p, i)
    ensures ReplaceAll(a + b, p, r) == a + ReplaceAll(b, p, r)
    decreases |a|
  {
    if a != [] {
      var s := a + b;
      var t := a[1..] + b;
      assert s[1..] == t;
      forall i | 0 <= i < |a[1..]|
        ensures !OccursAt(t, p, i)
      {
        assert !OccursAt(s, p, i + 1);
        if i + |p| <= |t| {
          assert t[i..i + |p|] == s[i + 1..i + 1 + |p|];
        }
      }
      ReplaceAllCopiesPrefix(a[1..], b, p, r);
      if |s| >= |p| {
        assert !OccursAt(s, p, 0);
        assert s[..|p|] == s[0..0 + |p|];
      }
      assert ReplaceAll(s, p, r) == [a[0]] + ReplaceAll(t, p, r);
      assert [a[0]] + (a[1..] + ReplaceAll(b, p, r)) == a + ReplaceAll(b, p, r);
    } else {
      assert a + b == b;
    }
  }

  /** An occurrence at the front is replaced and the scan goes on after it. */
  lemma ReplaceAllAtOccurrence(b: string, p: string, r: string)
    requires p != []
    ensures ReplaceAll(p + b, p, r) == r + ReplaceAll(b, p, r)
  {
    assert (p + b)[..|p|] == p;
    assert (p + b)[|p|..] == b;
  }

  /* ---------------------------------------------------------------------
     Python's `s.replace(p, r, 1)`: only the leftmost occurrence.
     --------------------------------------------------------------------- */

  function FirstIndexFrom(s: string, p: string, i: nat): (r: Option<nat>)
    ensures r.Some? ==> i <= r.value && OccursAt(s, p, r.value)
    ensures r.Some? ==> forall j :: i <= j < r.value ==> !OccursAt(s, p, j)
    ensures r.None? ==> forall j :: i <= j ==> !OccursAt(s, p, j)
    decreases |s| - i
  {
    if i + |p| > |s| then None
    else if s[i..i + |p|] == p then Some(i)
    else FirstIndexFrom(s, p, i + 1)
  }

  function ReplaceFirst(s: string, p: string, r: string): string
  {
    match FirstIndexFrom(s, p, 0)
    case None => s
    case Some(i) => s[..i] + r + s[i + |p|..]
  }

  /** When `s` begins with `p`, the leftmost occurrence is the prefix. */
  lemma ReplaceFirstOfPrefix(s: string, p: string, r: string)
    requires StartsWith(s, p)
    ensures ReplaceFirst(s, p, r) == r + s[|p|..]
  {
    assert OccursAt(s, p, 0);
    var f := FirstIndexFrom(s, p, 0);
    assert f == Some(0);
  }

  /* ---------------------------------------------------------------------
     `re.sub(pattern, '', s)`: `m(t)` is the length of the match of the
     pattern anchored at the start of `t`, 0 when there is none (the two
     patterns deleted here never match the empty string).
     --------------------------------------------------------------------- */

  function DeleteMatches(s: string, m: string -> nat): (r: string)
    requires forall t :: m(t) <= |t|
    ensures |r| <= |s|
    decreases |s|
  {
    if s == [] then []
    else if m(s) > 0 then DeleteMatches(s[m(s)..], m)
    else [s[0]] + DeleteMatches(s[1..], m)
  }

  /** Some position of `s` starts a match. */
  predicate HasMatch(s: string, m: string -> nat)
  {
    exists i | 0 <= i < |s| :: m(s[i..]) > 0
  }

  lemma {:induction false} DeleteMatchesIdentity(s: string, m: string -> nat)
    requires forall t :: m(t) <= |t|
    ensures DeleteMatches(s, m) == s <==> !HasMatch(s, m)
    decreases |s|
  {
    if s == [] {
    } else if m(s) > 0 {
      assert s[0..] == s;
      assert HasMatch(s, m);
    } else {
      DeleteMatchesIdentity(s[1..], m);
      assert s[0..] == s;
      if HasMatch(s, m) {
        var i :| 0 <= i < |s| && m(s[i..]) > 0;
        assert i != 0;
        assert s[1..][i - 1..] == s[i..];
      }
      if HasMatch(s[1..], m) {
        var i :| 0 <= i < |s[1..]| && m(s[1..][i..]) > 0;
        assert s[1..][i..] == s[i + 1..];
      }
    }
  }

  /** Deleting matches keeps every other character, in order. */
  lemma {:induction false} DeleteMatchesKeepsOrder(s: string, m: string -> nat)
    requires forall t :: m(t) <= |t|
    ensures IsSubseq(DeleteMatches(s, m), s)
    decreases |s|
  {
    if s == [] {
    } else if m(s) > 0 {
      DeleteMatchesKeepsOrder(s[m(s)..], m);
      SubseqOfSuffix(DeleteMatches(s[m(s)..], m), s, m(s));
    } else {
      DeleteMatchesKeepsOrder(s[1..], m);
      var r := DeleteMatches(s[1..], m);
      assert ([s[0]] + r)[1..] == r;
    }
  }

  /** A stretch where no match starts is copied through unchanged. */
  lemma DeleteMatchesCopiesPrefix(a: string, b: string, m: string -> nat)
    requires forall t :: m(t) <= |t|
    requires forall i | 0 <= i < |a| :: m((a + b)[i..]) == 0
    ensures DeleteMatches(a + b, m) == a + DeleteMatches(b, m)
  {
    var s := a + b;
    DeleteMatchesKeepsHead(s, |a|, m);
    assert s[..|a|] == a && s[|a|..] == b;
  }

  /** The same, on one string: the first `k` characters, where no match
      starts, are copied through. */
  lemma {:induction false} DeleteMatchesKeepsHead(s: string, k: nat, m: string -> nat)
    requires forall t :: m(t) <= |t|
    requires k <= |s|
    requires forall i | 0 <= i < k :: m(s[i..]) == 0
    ensures DeleteMatches(s, m) == s[..k] + DeleteMatches(s[k..], m)
    decreases k
  {
    if k == 0 {
      assert s[..0] == [] && s[0..] == s;
    } else {
      NoMatchInTail(s, k, m);
      DeleteMatchesKeepsHead(s[1..], k - 1, m);
      assert s[0..] == s;
      KeepsHeadStep(s, k, m);
    }
  }

  /** One step of the above: an unmatched first character is kept in front. */
  lemma KeepsHeadStep(s: string, k: nat, m: string -> nat)
    requires forall t :: m(t) <= |t|
    requires 0 < k <= |s| && m(s) == 0
    requires DeleteMatches(s[1..], m) == s[1..][..k - 1] + DeleteMatches(s[1..][k - 1..], m)
    ensures DeleteMatches(s, m) == s[..k] + DeleteMatches(s[k..], m)
  {
    var head := s[1..][..k - 1];
    var tail := DeleteMatches(s[k..], m);
    HeadTailSlices(s, k);
    assert DeleteMatches(s[1..], m) == head + tail;
    DeleteUnmatchedHead(s, m);
    ConsAssoc(s[0], head, tail);
  }

  lemma ConsAssoc(c: char, x: string, y: string)
    ensures [c] + (x + y) == ([c] + x) + y
  {
  }

  lemma NoMatchInTail(s: string, k: nat, m: string -> nat)
    requires 0 < k <= |s|
    requires forall i | 0 <= i < k :: m(s[i..]) == 0
    ensures forall i | 0 <= i < k - 1 :: m(s[1..][i..]) == 0
  {
    forall i | 0 <= i < k - 1
      ensures m(s[1..][i..]) == 0
    {
      assert s[1..][i..] == s[i + 1..];
    }
  }

  lemma HeadTailSlices(s: string, k: nat)
    requires 0 < k <= |s|
    ensures s[1..][k - 1..] == s[k..]
    ensures [s[0]] + s[1..][..k - 1] == s[..k]
  {
  }

  lemma DeleteUnmatchedHead(s: string, m: string -> nat)
    requires forall t :: m(t) <= |t|
    requires s != [] && m(s) == 0
    ensures DeleteMatches(s, m) == [s[0]] + DeleteMatches(s[1..], m)
  {
  }

  /* ---------------------------------------------------------------------
     Subsequences.
     --------------------------------------------------------------------- */

  /** `a` is `b` with some elements deleted; the rest keep their order. */
  predicate IsSubseq<T(==)>(a: seq<T>, b: seq<T>)
    decreases |b|
  {
    a == [] || (b != [] && ((a[0] == b[0] && IsSubseq(a[1..], b[1..])) || IsSubseq(a, b[1..])))
  }

  lemma {:induction false} SubseqOfSuffix<T>(a: seq<T>, b: seq<T>, k: nat)
    requires k <= |b|
    requires IsSubseq(a, b[k..])
    ensures IsSubseq(a, b)
    decreases k
  {
    if k > 0 {
      assert b[1..][k - 1..] == b[k..];
      SubseqOfSuffix(a, b[1..], k - 1);
    }
  }
}
