/**
 Splitting a string on a one-character separator and joining parts back
 together, as the loader does with `String.prototype.split` and
 `Array.prototype.join` on `"\n"` and `","`. The separator is matched
 literally: no quoting, no `\r` handling.
 */
module Text {

  /** Position of the first occurrence of `d` in `s`. */
  function FirstIndex(s: string, d: char): (i: nat)
    requires d in s
    ensures i < |s| && s[i] == d
    ensures d !in s[..i]
  {
    if s[0] == d then 0
    else
      assert d in s[1..] by { var k :| 0 <= k < |s| && s[k] == d; assert s[1..][k - 1] == d; }
      var j := FirstIndex(s[1..], d);
      assert s[..j + 1] == [s[0]] + s[1..][..j];
      j + 1
  }

  /**
   The parts of `s` between occurrences of `d`, like JavaScript's
   `s.split(d)`: there is always at least one part, the empty string
   splits into one empty part, and a trailing separator yields an empty
   last part.
   */
  function Split(s: string, d: char): (parts: seq<string>)
    ensures |parts| >= 1
    ensures forall k :: 0 <= k < |parts| ==> d !in parts[k]
    decreases |s|
  {
    if d !in s then [s]
    else
      var i := FirstIndex(s, d);
      [s[..i]] + Split(s[i + 1..], d)
  }

  /** The parts glued together with `d` between neighbours, like `parts.join(d)`. */
  function Join(parts: seq<string>, d: char): (s: string)
  {
    if |parts| == 0 then []
    else if |parts| == 1 then parts[0]
    else parts[0] + [d] + Join(parts[1..], d)
  }

  /** Joining the parts of a split gives back the original string. */
  lemma {:induction false} JoinSplit(s: string, d: char)
    ensures Join(Split(s, d), d) == s
    decreases |s|
  {
    if d in s {
      var i := FirstIndex(s, d);
      var rest := s[i + 1..];
      JoinSplit(rest, d);
      var parts := Split(s, d);
      assert parts == [s[..i]] + Split(rest, d);
      assert parts[1..] == Split(rest, d);
      assert Join(parts, d) == s[..i] + [d] + rest;
      assert s == s[..i] + [d] + rest;
    }
  }

  /** In `p + [d] + t` with no `d` in `p`, the first `d` sits right after `p`. */
  lemma FirstIndexAfterPart(p: string, d: char, t: string)
    requires d !in p
    ensures d in p + [d] + t
    ensures FirstIndex(p + [d] + t, d) == |p|
  {
    var s := p + [d] + t;
    assert s[|p|] == d;
  }

  /**
   Splitting a join gives back the parts, as long as there is at least one
   part and no part contains the separator.
   */
  lemma {:induction false} SplitJoin(parts: seq<string>, d: char)
    requires |parts| >= 1
    requires forall k :: 0 <= k < |parts| ==> d !in parts[k]
    ensures Split(Join(parts, d), d) == parts
    decreases |parts|
  {
    if |parts| > 1 {
      var p := parts[0];
      var t := Join(parts[1..], d);
      var s := p + [d] + t;
      assert Join(parts, d) == s;
      FirstIndexAfterPart(p, d, t);
      assert s[..|p|] == p;
      assert s[|p| + 1..] == t;
      SplitJoin(parts[1..], d);
      assert Split(s, d) == [p] + parts[1..];
      assert [p] + parts[1..] == parts;
    }
  }

  /** A join contains `c` only where a part did or where `c` is the separator. */
  lemma {:induction false} JoinOmits(parts: seq<string>, d: char, c: char)
    requires c != d
    requires forall k :: 0 <= k < |parts| ==> c !in parts[k]
    ensures c !in Join(parts, d)
    decreases |parts|
  {
    if |parts| > 1 {
      JoinOmits(parts[1..], d, c);
      assert Join(parts, d) == parts[0] + [d] + Join(parts[1..], d);
    }
  }

  /** A part of a split has no character that the whole string lacks. */
  lemma {:induction false} SplitOmits(s: string, d: char, c: char)
    requires c !in s
    ensures forall k :: 0 <= k < |Split(s, d)| ==> c !in Split(s, d)[k]
    decreases |s|
  {
    if d in s {
      var i := FirstIndex(s, d);
      SplitOmits(s[i + 1..], d, c);
    }
  }
}
