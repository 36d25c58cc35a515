/** The JavaScript string built-ins that the formatter relies on, over `seq<char>`. */
module JsString {

  /** `tok` occurs in `s` starting at index `i`. */
  predicate OccursAt(s: string, tok: string, i: nat) {
    i + |tok| <= |s| && s[i..i + |tok|] == tok
  }

  /** The search `replace` performs: the first occurrence of `tok` at or after `from`, or -1. */
  function IndexFrom(s: string, tok: string, from: nat): (r: int)
    requires from <= |s|
    decreases |s| - from
    ensures r == -1 || (from <= r && r + |tok| <= |s|)
  {
    if from + |tok| > |s| then -1
    else if s[from..from + |tok|] == tok then from
    else IndexFrom(s, tok, from + 1)
  }

  /** The search finds the first occurrence from `from` on, and -1 means there is none. */
  lemma {:induction false} IndexFromFinds(s: string, tok: string, from: nat)
    requires from <= |s|
    decreases |s| - from
    ensures var r := IndexFrom(s, tok, from);
            && (r == -1 || OccursAt(s, tok, r))
            && (r == -1 ==> forall j :: from <= j <= |s| ==> !OccursAt(s, tok, j))
            && (r != -1 ==> forall j :: from <= j < r ==> !OccursAt(s, tok, j))
  {
    if from + |tok| <= |s| && s[from..from + |tok|] != tok {
      IndexFromFinds(s, tok, from + 1);
    }
  }

  /** `i` is the first index at which `tok` occurs in `s`. */
  predicate FirstAt(s: string, tok: string, i: nat) {
    OccursAt(s, tok, i) && forall j :: 0 <= j < i ==> !OccursAt(s, tok, j)
  }

  /** `tok` does not occur in `s` at all. */
  predicate Absent(s: string, tok: string) {
    forall j :: 0 <= j <= |s| ==> !OccursAt(s, tok, j)
  }

  /** `s.replace(tok, repl)` with a string pattern. */
  function ReplaceFirst(s: string, tok: string, repl: string): string {
    var i := IndexFrom(s, tok, 0);
    if i < 0 then s else s[..i] + repl + s[i + |tok|..]
  }

  /** Only the FIRST occurrence of `tok` is replaced; without one the string is unchanged. */
  lemma ReplacesFirst(s: string, tok: string, repl: string)
    ensures Absent(s, tok) ==> ReplaceFirst(s, tok, repl) == s
    ensures forall i: nat :: FirstAt(s, tok, i) ==> ReplaceFirst(s, tok, repl) == s[..i] + repl + s[i + |tok|..]
  {
    IndexFromFinds(s, tok, 0);
    var r := IndexFrom(s, tok, 0);
    forall i: nat | FirstAt(s, tok, i)
      ensures ReplaceFirst(s, tok, repl) == s[..i] + repl + s[i + |tok|..]
    {
      assert r != -1 by {
        assert i <= |s|;
      }
      assert r == i by {
        assert OccursAt(s, tok, r);
        assert OccursAt(s, tok, i);
      }
    }
  }

  /** `s.substr(k)` for `k >= 0`: what follows the first `k` characters, empty when `s` is shorter. */
  function Substr(s: string, k: nat): (r: string)
    ensures k <= |s| ==> s[..k] + r == s
    ensures |s| <= k ==> r == []
  {
    if k <= |s| then s[k..] else []
  }

  /** `s.split("/").slice(-1)` as a string: the longest suffix of `s` without a '/'. */
  function LastSegment(s: string): (r: string)
    ensures |r| <= |s| && s[|s| - |r|..] == r
    ensures '/' !in r
    ensures |r| < |s| ==> s[|s| - |r| - 1] == '/'
  {
    if s == [] || s[|s| - 1] == '/' then []
    else LastSegment(s[..|s| - 1]) + [s[|s| - 1]]
  }

  /** The last segment of a path that ends in a '/'-free name after a '/' is that name. */
  lemma {:induction false} LastSegmentAfterSlash(p: string, w: string)
    requires |p| > 0 && p[|p| - 1] == '/'
    requires '/' !in w
    ensures LastSegment(p + w) == w
  {
    if w != [] {
      var w' := w[..|w| - 1];
      assert (p + w)[..|p + w| - 1] == p + w';
      LastSegmentAfterSlash(p, w');
      assert w == w' + [w[|w| - 1]];
    } else {
      assert p + w == p;
    }
  }

  /** Replacing by "" removes only the first copy of a token: a second copy stays in the text. */
  lemma StripRemovesOnlyFirst()
    ensures ReplaceFirst("t.co/x t.co/x", "t.co/x", "") == " t.co/x"
  {
    var s := "t.co/x t.co/x";
    assert OccursAt(s, "t.co/x", 0);
    ReplacesFirst(s, "t.co/x", "");
    assert s[6..] == " t.co/x";
  }
}
