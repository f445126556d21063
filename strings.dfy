/** Literal search and replacement on strings, in the way JavaScript's String
    methods perform them when the pattern is a plain string or a regular
    expression made only of literal characters. */
module Strings {

  datatype Option<T> = None | Some(value: T)

  predicate IsDigit(c: char) {
    '0' <= c <= '9'
  }

  predicate NoUnderscore(s: string) {
    forall i :: 0 <= i < |s| ==> s[i] != '_'
  }

  /** p occurs in s starting at index k */
  predicate OccursAt(s: string, p: string, k: int) {
    0 <= k && k + |p| <= |s| && s[k..k + |p|] == p
  }

  predicate Contains(s: string, p: string) {
    exists k :: 0 <= k <= |s| && OccursAt(s, p, k)
  }

  /** Occurrences in s[1..] are the occurrences in s shifted by one. */
  lemma OccursShift(s: string, p: string)
    requires s != []
    ensures forall j :: 0 <= j && OccursAt(s[1..], p, j) ==> OccursAt(s, p, j + 1)
    ensures forall j :: 1 <= j && OccursAt(s, p, j) ==> OccursAt(s[1..], p, j - 1)
  {
    forall j | 0 <= j && OccursAt(s[1..], p, j)
      ensures OccursAt(s, p, j + 1)
    {
      assert s[1..][j..j + |p|] == s[j + 1..j + 1 + |p|];
    }
    forall j | 1 <= j && OccursAt(s, p, j)
      ensures OccursAt(s[1..], p, j - 1)
    {
      assert s[1..][j - 1..j - 1 + |p|] == s[j..j + |p|];
    }
  }

  /** An occurrence in the tail of a + b is an occurrence in a + b. */
  lemma ContainsSuffix(a: string, b: string, p: string)
    requires Contains(b, p)
    ensures Contains(a + b, p)
  {
    var k :| 0 <= k <= |b| && OccursAt(b, p, k);
    assert (a + b)[|a| + k..|a| + k + |p|] == b[k..k + |p|];
    assert OccursAt(a + b, p, |a| + k);
  }

  /** An occurrence in a + b that does not start inside a lies in b. */
  lemma OccursInSuffix(a: string, b: string, p: string, o: int)
    requires OccursAt(a + b, p, o) && o >= |a|
    ensures OccursAt(b, p, o - |a|)
  {
    assert (a + b)[o..o + |p|] == b[o - |a|..o - |a| + |p|];
  }

  /** JavaScript's s.indexOf(p): the least index at which p occurs, or -1. */
  function IndexOf(s: string, p: string): (r: int)
    ensures r == -1 <==> !Contains(s, p)
    ensures r != -1 ==> OccursAt(s, p, r) && forall j :: 0 <= j < r ==> !OccursAt(s, p, j)
    decreases |s|
  {
    if OccursAt(s, p, 0) then 0
    else if s == [] then -1
    else
      var i := IndexOf(s[1..], p);
      OccursShift(s, p);
      if i == -1 then -1 else i + 1
  }

  /** JavaScript's s.replace(p, r) with a string pattern p: only the first
      occurrence of p is replaced. */
  function ReplaceFirst(s: string, p: string, r: string): (t: string)
    ensures !Contains(s, p) ==> t == s
    ensures Contains(s, p) ==>
      exists i :: OccursAt(s, p, i) && (forall j :: 0 <= j < i ==> !OccursAt(s, p, j)) &&
                  t == s[..i] + r + s[i + |p|..]
  {
    var i := IndexOf(s, p);
    if i == -1 then s else s[..i] + r + s[i + |p|..]
  }

  /** s.replace(new RegExp(p, "g"), r) for a pattern matching exactly the
      string p: every leftmost, non-overlapping occurrence of p is replaced by
      r, scanning left to right. An empty pattern matches at every position,
      before each character and at the end, as it does in JavaScript. */
  function ReplaceAll(s: string, p: string, r: string): (t: string)
    ensures !Contains(s, p) ==> t == s
    decreases |s|
  {
    if p == [] then
      assert OccursAt(s, p, 0);
      (if s == [] then r else r + [s[0]] + ReplaceAll(s[1..], p, r))
    else if OccursAt(s, p, 0) then
      r + ReplaceAll(s[|p|..], p, r)
    else if s == [] then
      []
    else
      OccursShift(s, p);
      [s[0]] + ReplaceAll(s[1..], p, r)
  }

  /** A match at the front is replaced and the scan continues after it. */
  lemma ReplaceAllHead(p: string, b: string, r: string)
    requires p != []
    ensures ReplaceAll(p + b, p, r) == r + ReplaceAll(b, p, r)
  {
    assert (p + b)[..|p|] == p;
    assert (p + b)[|p|..] == b;
  }

  /** Without a match at the front, the first character is kept. */
  lemma ReplaceAllStep(s: string, p: string, r: string)
    requires p != [] && s != [] && !OccursAt(s, p, 0)
    ensures ReplaceAll(s, p, r) == [s[0]] + ReplaceAll(s[1..], p, r)
  {
  }

  /** When p starts nowhere inside a, the scan passes a unchanged. */
  lemma {:induction false} ReplaceAllSkip(a: string, b: string, p: string, r: string)
    requires p != []
    requires forall o :: 0 <= o < |a| ==> !OccursAt(a + b, p, o)
    ensures ReplaceAll(a + b, p, r) == a + ReplaceAll(b, p, r)
    decreases |a|
  {
    if a == [] {
      assert a + b == b;
    } else {
      NoMatchInTail(a, b, p);
      ReplaceAllSkip(a[1..], b, p, r);
      ReplaceAllStep(a + b, p, r);
      ConcatParts(a, b);
      Assoc([a[0]], a[1..], ReplaceAll(b, p, r));
      assert [a[0]] + a[1..] == a;
    }
  }

  lemma NoMatchInTail(a: string, b: string, p: string)
    requires a != []
    requires forall o :: 0 <= o < |a| ==> !OccursAt(a + b, p, o)
    ensures !OccursAt(a + b, p, 0)
    ensures forall o :: 0 <= o < |a| - 1 ==> !OccursAt(a[1..] + b, p, o)
  {
    assert !OccursAt(a + b, p, 0);
    forall o | 0 <= o < |a| - 1
      ensures !OccursAt(a[1..] + b, p, o)
    {
      if OccursAt(a[1..] + b, p, o) {
        assert (a + b)[o + 1..o + 1 + |p|] == (a[1..] + b)[o..o + |p|];
        assert OccursAt(a + b, p, o + 1);
      }
    }
  }

  /** A pattern whose first character does not occur in a never starts inside a. */
  lemma ReplaceAllSkipChars(a: string, b: string, p: string, r: string)
    requires p != [] && p[0] !in a
    ensures ReplaceAll(a + b, p, r) == a + ReplaceAll(b, p, r)
  {
    forall o | 0 <= o < |a|
      ensures !OccursAt(a + b, p, o)
    {
      if OccursAt(a + b, p, o) {
        assert false;
      }
    }
    ReplaceAllSkip(a, b, p, r);
  }

  // ---------------------------------------------------------------------
  // Sequence identities shared by the modules that build on this one

  lemma ConsParts<T>(x: T, ys: seq<T>)
    ensures ([x] + ys)[0] == x && ([x] + ys)[1..] == ys
  {
  }

  lemma SplitAt<T>(a: seq<T>, i: nat)
    requires i <= |a|
    ensures a == a[..i] + a[i..]
  {
  }

  /** Stepping over the first element of a. */
  lemma ConcatParts<T>(a: seq<T>, b: seq<T>)
    requires a != []
    ensures (a + b)[0] == a[0] && (a + b)[1..] == a[1..] + b
  {
  }

  lemma Assoc<T>(a: seq<T>, b: seq<T>, c: seq<T>)
    ensures (a + b) + c == a + (b + c)
  {
  }

  lemma TakeSnoc<T>(s: seq<T>, n: nat)
    requires n < |s|
    ensures s[..n + 1] == s[..n] + [s[n]]
  {
  }

  lemma TakeAll<T>(s: seq<T>)
    ensures s[..|s|] == s
  {
  }

  lemma TakeSplit<T>(a: seq<T>, b: seq<T>)
    ensures (a + b)[..|a|] == a
  {
  }
}
