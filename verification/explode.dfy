/**
 This module models PHP's `explode("\n", s)` as used by the in-memory line
 source: the input text is cut at every line feed, and the pieces between
 the line feeds (including empty ones at either end) are kept in order.
 `Join` glues pieces back together with a line feed and is the inverse
 of `Split` in both directions.
 */
module Explode {

  /** The separator the line source splits on. */
  const LF: char := '\n'

  /** True iff no piece of `parts` contains a line feed. */
  predicate NoSeparators(parts: seq<string>) {
    forall i :: 0 <= i < |parts| ==> LF !in parts[i]
  }

  /** Number of line feeds in `s`, counted independently of `Split`. */
  function Separators(s: string): nat {
    multiset(s)[LF]
  }

  /** `explode("\n", s)`: the pieces of `s` between line feeds. The empty
      text has exactly one, empty, piece. */
  function Split(s: string): (r: seq<string>)
    ensures |r| >= 1
    ensures NoSeparators(r)
    decreases |s|
  {
    if |s| == 0 then [""]
    else
      var init := Split(s[..|s| - 1]);
      var c := s[|s| - 1];
      if c == LF then init + [""]
      else init[..|init| - 1] + [init[|init| - 1] + [c]]
  }

  /** The pieces of `parts` separated by single line feeds (PHP `implode`). */
  function Join(parts: seq<string>): string
    decreases |parts|
  {
    if |parts| == 0 then ""
    else if |parts| == 1 then parts[0]
    else Join(parts[..|parts| - 1]) + [LF] + parts[|parts| - 1]
  }

  /** Extending the last piece by one character extends the joined text by
      that character. */
  lemma JoinExtendLast(parts: seq<string>, c: char)
    requires |parts| >= 1
    ensures Join(parts[..|parts| - 1] + [parts[|parts| - 1] + [c]]) == Join(parts) + [c]
  {
    var k := |parts|;
    var x := parts[k - 1] + [c];
    var q := parts[..k - 1] + [x];
    assert |q| == k && q[k - 1] == x;
    if k > 1 {
      var front := Join(parts[..k - 1]);
      assert q[..k - 1] == parts[..k - 1];
      assert Join(q) == front + [LF] + x;
      assert Join(parts) == front + [LF] + parts[k - 1];
      assert front + [LF] + x == front + [LF] + parts[k - 1] + [c];
    } else {
      assert Join(q) == x;
    }
  }

  /** Joining the pieces of `s` gives back `s` exactly. */
  lemma {:induction false} JoinSplit(s: string)
    ensures Join(Split(s)) == s
    decreases |s|
  {
    if |s| > 0 {
      var p := s[..|s| - 1];
      var c := s[|s| - 1];
      assert s == p + [c];
      var init := Split(p);
      JoinSplit(p);
      if c == LF {
        assert (init + [""])[..|init|] == init;
        assert Join(init + [""]) == Join(init) + [LF] + "";
      } else {
        JoinExtendLast(init, c);
      }
    }
  }

  /** Splitting after a line feed opens a new, empty, last piece. */
  lemma SplitAppendSeparator(t: string)
    ensures Split(t + [LF]) == Split(t) + [""]
  {
    assert (t + [LF])[..|t|] == t;
  }

  /** Appending text without a line feed only extends the last piece. */
  lemma {:induction false} SplitAppendPlain(t: string, w: string)
    requires LF !in w
    ensures var p := Split(t); Split(t + w) == p[..|p| - 1] + [p[|p| - 1] + w]
    decreases |w|
  {
    var p := Split(t);
    if |w| == 0 {
      assert t + w == t;
      assert p[|p| - 1] + w == p[|p| - 1];
      assert p[..|p| - 1] + [p[|p| - 1]] == p;
    } else {
      var w' := w[..|w| - 1];
      var c := w[|w| - 1];
      assert w == w' + [c];
      assert c in w;
      assert forall ch :: ch in w' ==> ch in w;
      SplitAppendPlain(t, w');
      assert (t + w)[..|t + w| - 1] == t + w';
      assert (t + w)[|t + w| - 1] == c;
      assert p[|p| - 1] + w' + [c] == p[|p| - 1] + w;
    }
  }

  /** Splitting a join of line-feed-free pieces gives back those pieces:
      `Split` is injective on texts and onto all such piece lists. */
  lemma {:induction false} SplitJoin(parts: seq<string>)
    requires |parts| >= 1
    requires NoSeparators(parts)
    ensures Split(Join(parts)) == parts
    decreases |parts|
  {
    var k := |parts|;
    var last := parts[k - 1];
    if k == 1 {
      SplitAppendPlain("", last);
      assert "" + last == last;
    } else {
      var init := parts[..k - 1];
      assert NoSeparators(init) by {
        forall i | 0 <= i < |init| ensures LF !in init[i] {
          assert init[i] == parts[i];
        }
      }
      SplitJoin(init);
      SplitAppendSeparator(Join(init));
      SplitAppendPlain(Join(init) + [LF], last);
      assert (init + [""])[..k - 1] == init;
      assert "" + last == last;
      assert init + [last] == parts;
    }
  }

  /** There is one more piece than there are line feeds in the input. */
  lemma {:induction false} SplitCount(s: string)
    ensures |Split(s)| == Separators(s) + 1
    decreases |s|
  {
    if |s| > 0 {
      var p := s[..|s| - 1];
      var c := s[|s| - 1];
      assert s == p + [c];
      assert multiset(s) == multiset(p) + multiset{c};
      SplitCount(p);
    }
  }

  /** The pieces are determined by the two facts a caller can observe:
      they join back to the input and none contains a line feed. */
  lemma SplitUnique(s: string, parts: seq<string>)
    requires |parts| >= 1 && NoSeparators(parts) && Join(parts) == s
    ensures parts == Split(s)
  {
    SplitJoin(parts);
  }
}
