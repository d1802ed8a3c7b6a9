/** The few functions of Go's `strings` package that the link checker relies on:
    `Index`, `Contains`, `HasPrefix` and `Replace` with a count of one.
    Strings are sequences of characters; Go's byte offsets are not distinguished
    from character offsets, which makes no difference to the slicing done here. */
module Strings {

  /** `pat` occurs in `s` starting at offset `i`. */
  predicate OccursAt(s: string, pat: string, i: int) {
    0 <= i && i + |pat| <= |s| && s[i..i + |pat|] == pat
  }

  /** `i` is the leftmost offset at which `pat` occurs in `s`. */
  predicate FirstOccurrence(s: string, pat: string, i: int) {
    OccursAt(s, pat, i) && forall j :: 0 <= j < i ==> !OccursAt(s, pat, j)
  }

  lemma OccursAtTail(s: string, pat: string, i: int)
    requires |s| > 0 && i >= 0
    ensures OccursAt(s[1..], pat, i) <==> OccursAt(s, pat, i + 1)
  {
    if 0 <= i && i + |pat| <= |s| - 1 {
      assert s[1..][i..i + |pat|] == s[i + 1..i + 1 + |pat|];
    }
  }

  /** strings.Index: the offset of the leftmost occurrence of `pat` in `s`,
      or -1 when there is none. */
  function Index(s: string, pat: string): (r: int)
    ensures r == -1 || FirstOccurrence(s, pat, r)
    ensures r == -1 <==> forall i :: !OccursAt(s, pat, i)
    decreases |s|
  {
    if |s| < |pat| then -1
    else if s[..|pat|] == pat then 0
    else
      var r := Index(s[1..], pat);
      assert forall i :: 0 <= i ==> (OccursAt(s[1..], pat, i) <==> OccursAt(s, pat, i + 1)) by {
        forall i | 0 <= i ensures OccursAt(s[1..], pat, i) <==> OccursAt(s, pat, i + 1) {
          OccursAtTail(s, pat, i);
        }
      }
      assert !OccursAt(s, pat, 0);
      if r < 0 then
        assert forall i :: !OccursAt(s, pat, i) by {
          forall i ensures !OccursAt(s, pat, i) {
            if i > 0 { assert !OccursAt(s[1..], pat, i - 1); }
          }
        }
        -1
      else
        assert forall j :: 0 <= j < r + 1 ==> !OccursAt(s, pat, j) by {
          forall j | 0 <= j < r + 1 ensures !OccursAt(s, pat, j) {
            if j > 0 { assert !OccursAt(s[1..], pat, j - 1); }
          }
        }
        r + 1
  }

  /** strings.Contains: `pat` occurs somewhere in `s`. */
  function Contains(s: string, pat: string): (b: bool)
    ensures b <==> exists i :: OccursAt(s, pat, i)
  {
    Index(s, pat) >= 0
  }

  /** strings.HasPrefix. */
  function HasPrefix(s: string, prefix: string): (b: bool)
    ensures b <==> |prefix| <= |s| && forall i :: 0 <= i < |prefix| ==> s[i] == prefix[i]
  {
    |prefix| <= |s| && s[..|prefix|] == prefix
  }

  /** Cutting `s` around an occurrence of `pat` and putting `pat` back gives `s`. */
  lemma SpliceBack(s: string, pat: string, i: int)
    requires OccursAt(s, pat, i)
    ensures s == s[..i] + pat + s[i + |pat|..]
  {
    assert s == s[..i] + s[i..i + |pat|] + s[i + |pat|..];
  }

  /** strings.Replace(s, pat, repl, 1): replaces the leftmost occurrence of
      `pat` only.  As in Go, an empty `pat` matches at the start of `s`, and
      replacing a string by itself returns `s`. */
  function ReplaceOne(s: string, pat: string, repl: string): (r: string)
    ensures (forall i :: !OccursAt(s, pat, i)) ==> r == s
    ensures (exists i :: OccursAt(s, pat, i)) ==>
              |r| == |s| - |pat| + |repl| &&
              exists i :: FirstOccurrence(s, pat, i) && r == s[..i] + repl + s[i + |pat|..]
  {
    var i := Index(s, pat);
    if i < 0 then s
    else if pat == repl then
      SpliceBack(s, pat, i);
      s
    else if pat == "" then
      assert s[..i] + repl + s[i + |pat|..] == repl + s;
      repl + s
    else s[..i] + repl + s[i + |pat|..]
  }
}
