/**
 * The part of Go's `strings` package the router relies on: `strings.Split(s, "/")`,
 * and `Join`, its inverse, which the round-trip lemmas use to build request paths.
 */
module Strings {

  /** No character of `s` is a slash. */
  predicate NoSlash(s: string) {
    forall j :: 0 <= j < |s| ==> s[j] != '/'
  }

  /** Index of the first '/' in `s`, or `|s|` when there is none. */
  function SlashIndex(s: string): (i: nat)
    ensures i <= |s|
    ensures NoSlash(s[..i])
    ensures i < |s| ==> s[i] == '/'
  {
    if |s| == 0 || s[0] == '/' then 0 else 1 + SlashIndex(s[1..])
  }

  /**
   * `strings.Split(s, "/")`: the pieces between slashes, so one more piece than
   * there are slashes. The empty string splits into one empty piece.
   */
  function Split(s: string): (segs: seq<string>)
    ensures |segs| >= 1
    ensures forall k :: 0 <= k < |segs| ==> NoSlash(segs[k])
    decreases |s|
  {
    var i := SlashIndex(s);
    if i == |s| then [s] else [s[..i]] + Split(s[i + 1..])
  }

  /** The pieces glued back together with '/' between neighbours. */
  function Join(segs: seq<string>): string
    requires |segs| >= 1
  {
    if |segs| == 1 then segs[0] else segs[0] + "/" + Join(segs[1..])
  }

  /** The index of the first slash of `w + r` is `|w|` when `w` has none and `r` starts with one. */
  lemma {:induction false} SlashIndexAt(w: string, r: string)
    requires NoSlash(w)
    requires r == [] || r[0] == '/'
    ensures SlashIndex(w + r) == |w|
  {
    if w != [] {
      assert (w + r)[1..] == w[1..] + r;
      SlashIndexAt(w[1..], r);
    } else {
      assert w + r == r;
    }
  }

  /** A slash-free string is a single piece. */
  lemma SplitSingle(w: string)
    requires NoSlash(w)
    ensures Split(w) == [w]
  {
    SlashIndexAt(w, []);
    assert w + [] == w;
  }

  /** A slash-free piece, a slash and the rest: the piece comes first, then the pieces of the rest. */
  lemma SplitAt(w: string, r: string)
    requires NoSlash(w)
    ensures Split(w + "/" + r) == [w] + Split(r)
  {
    var s := w + "/" + r;
    assert s == w + ("/" + r);
    SlashIndexAt(w, "/" + r);
    assert s[..|w|] == w;
    assert s[|w| + 1..] == r;
  }

  /** Splitting undoes joining, as long as no piece holds a slash. */
  lemma {:induction false} SplitJoin(segs: seq<string>)
    requires |segs| >= 1
    requires forall k :: 0 <= k < |segs| ==> NoSlash(segs[k])
    ensures Split(Join(segs)) == segs
  {
    if |segs| == 1 {
      SplitSingle(segs[0]);
    } else {
      var rest := segs[1..];
      assert forall k :: 0 <= k < |rest| ==> rest[k] == segs[k + 1];
      SplitAt(segs[0], Join(rest));
      SplitJoin(rest);
      assert segs == [segs[0]] + rest;
    }
  }

  /** Joining undoes splitting. */
  lemma {:induction false} JoinSplit(s: string)
    ensures Join(Split(s)) == s
    decreases |s|
  {
    var i := SlashIndex(s);
    if i < |s| {
      JoinSplit(s[i + 1..]);
      assert Split(s)[1..] == Split(s[i + 1..]);
      assert s == s[..i] + "/" + s[i + 1..];
    }
  }
}
