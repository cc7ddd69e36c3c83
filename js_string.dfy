/** The two JavaScript string operations the highlighter relies on:
    `String.prototype.indexOf` and `String.prototype.replace` with a string
    pattern, which replaces only the first match. */
module JsString {

  /** `p` occurs in `s` starting at index `i`. */
  predicate OccursAt(s: string, p: string, i: nat) {
    i + |p| <= |s| && s[i..i + |p|] == p
  }

  /** `p` occurs somewhere in `s`. */
  ghost predicate Contains(s: string, p: string) {
    exists i: nat :: OccursAt(s, p, i)
  }

  /** The least index at or after `from` where `p` occurs in `s`, or -1 if there is none. */
  function IndexFrom(s: string, p: string, from: nat): (r: int)
    decreases |s| - from
    ensures r == -1 || (from <= r && OccursAt(s, p, r))
    ensures forall j: nat :: from <= j && (r == -1 || j < r) ==> !OccursAt(s, p, j)
  {
    if from + |p| > |s| then -1
    else if s[from..from + |p|] == p then from
    else IndexFrom(s, p, from + 1)
  }

  /** `s.indexOf(p)`: the first occurrence of `p` in `s`, or -1. */
  function IndexOf(s: string, p: string): (r: int)
    ensures r >= 0 <==> Contains(s, p)
    ensures r >= 0 ==> OccursAt(s, p, r) && forall j: nat :: j < r ==> !OccursAt(s, p, j)
  {
    IndexFrom(s, p, 0)
  }

  /** `s.replace(p, '')`: with a string pattern only the first occurrence of `p` goes. */
  function RemoveFirst(s: string, p: string): (r: string)
    ensures !Contains(s, p) ==> r == s
    ensures Contains(s, p) ==>
      |r| + |p| == |s| &&
      exists k: nat :: OccursAt(s, p, k) && (forall j: nat :: j < k ==> !OccursAt(s, p, j)) && r == s[..k] + s[k + |p|..]
  {
    var k := IndexOf(s, p);
    if k < 0 then s else s[..k] + s[k + |p|..]
  }

  /** The first occurrence is the only occurrence with none before it. */
  lemma IndexOfIs(s: string, p: string, k: nat)
    requires OccursAt(s, p, k)
    requires forall j: nat :: j < k ==> !OccursAt(s, p, j)
    ensures IndexOf(s, p) == k
  {
  }

  /** An occurrence of a pattern without spaces in `x + " " + y` lies wholly
      inside `x` or wholly inside `y`: the space cannot be part of it. */
  lemma OccursAroundSpace(x: string, y: string, p: string, j: nat)
    requires ' ' !in p
    ensures OccursAt(x + " " + y, p, j) <==>
      OccursAt(x, p, j) || (j > |x| && OccursAt(y, p, j - |x| - 1))
  {
    var s := x + " " + y;
    if j + |p| <= |x| {
      assert s[j..j + |p|] == x[j..j + |p|];
    } else if j <= |x| && j + |p| <= |s| {
      assert s[j..j + |p|][|x| - j] == ' ';
    } else if j + |p| <= |s| {
      assert s[j..j + |p|] == y[j - |x| - 1..j - |x| - 1 + |p|];
    }
  }

  /** Where `indexOf` finds a pattern without spaces in `x + " " + y`. */
  lemma IndexOfAroundSpace(x: string, y: string, p: string)
    requires ' ' !in p
    ensures Contains(x + " " + y, p) <==> Contains(x, p) || Contains(y, p)
    ensures Contains(x, p) ==> IndexOf(x + " " + y, p) == IndexOf(x, p)
    ensures !Contains(x, p) && Contains(y, p) ==> IndexOf(x + " " + y, p) == |x| + 1 + IndexOf(y, p)
  {
    var s := x + " " + y;
    forall j: nat
      ensures OccursAt(s, p, j) <==> OccursAt(x, p, j) || (j > |x| && OccursAt(y, p, j - |x| - 1))
    {
      OccursAroundSpace(x, y, p, j);
    }
    if Contains(x, p) {
      IndexOfIs(s, p, IndexOf(x, p));
    } else if Contains(y, p) {
      var k := IndexOf(y, p);
      assert OccursAt(s, p, |x| + 1 + k);
      IndexOfIs(s, p, |x| + 1 + k);
    }
  }
}
