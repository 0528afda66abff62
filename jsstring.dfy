/**
 * JavaScript's `String.prototype.split` with a one-character separator, and
 * array indexing that yields `undefined` past the end.
 */
module JsString {
  import opened Wrappers
  import Seqs

  /**
   * `s.split(c)`: the pieces of `s` between occurrences of `c`. There is one
   * more piece than there are separators, so the empty string gives `[""]`,
   * and adjacent separators give empty pieces.
   */
  function Split(s: string, c: char): (parts: seq<string>)
    ensures |parts| == multiset(s)[c] + 1
    decreases |s|
  {
    if s == [] then [""]
    else
      var rest := Split(s[1..], c);
      assert s == [s[0]] + s[1..];
      if s[0] == c then [""] + rest
      else [[s[0]] + rest[0]] + rest[1..]
  }

  /** `parts.join(c)`, the inverse of `Split`. */
  function Join(parts: seq<string>, c: char): (s: string)
    requires |parts| >= 1
  {
    if |parts| == 1 then parts[0] else parts[0] + [c] + Join(parts[1..], c)
  }

  /** `xs[i]`: the element at `i`, or `undefined` when `i` is past the end. */
  function At(xs: seq<string>, i: nat): (r: Option<string>)
    ensures r.Some? <==> i < |xs|
    ensures r.Some? ==> r.value == xs[i]
  {
    if i < |xs| then Some(xs[i]) else None
  }

  /** The text of `s` before the first `c`, or all of `s` when there is none. */
  function Before(s: string, c: char): (r: string)
    ensures c !in r
    ensures r <= s
    ensures c in s ==> |r| < |s| && s[|r|] == c
    ensures c !in s ==> r == s
  {
    if c in s then s[..Seqs.FirstIndex(s, c)] else s
  }

  /** The text of `s` after the first `c`. */
  function After(s: string, c: char): (r: string)
    requires c in s
    ensures |r| < |s|
    ensures s == Before(s, c) + [c] + r
  {
    s[Seqs.FirstIndex(s, c) + 1..]
  }

  /** Without a separator, `split` returns the whole string as one piece. */
  lemma {:induction false} SplitNoSeparator(s: string, c: char)
    requires c !in s
    ensures Split(s, c) == [s]
    decreases |s|
  {
    if s != [] {
      assert s == [s[0]] + s[1..];
      SplitNoSeparator(s[1..], c);
    }
  }

  /** Splitting at a separator that follows a separator-free prefix `a`. */
  lemma {:induction false} SplitAtSeparator(a: string, b: string, c: char)
    requires c !in a
    ensures Split(a + [c] + b, c) == [a] + Split(b, c)
    decreases |a|
  {
    var s := a + [c] + b;
    if a == [] {
      assert s[1..] == b;
    } else {
      assert s[1..] == a[1..] + [c] + b;
      assert a == [a[0]] + a[1..];
      SplitAtSeparator(a[1..], b, c);
    }
  }

  /** `split` peels off the text before the first separator. */
  lemma SplitFirst(s: string, c: char)
    ensures c !in s ==> Split(s, c) == [s]
    ensures c in s ==> Split(s, c) == [Before(s, c)] + Split(After(s, c), c)
  {
    if c in s {
      SplitAtSeparator(Before(s, c), After(s, c), c);
    } else {
      SplitNoSeparator(s, c);
    }
  }

  /** No piece contains the separator. */
  lemma {:induction false} SplitPiecesFree(s: string, c: char)
    ensures forall i :: 0 <= i < |Split(s, c)| ==> c !in Split(s, c)[i]
    decreases |s|
  {
    SplitFirst(s, c);
    if c in s {
      SplitPiecesFree(After(s, c), c);
    }
  }

  /** Joining the pieces with the separator gives back the string. */
  lemma {:induction false} JoinSplit(s: string, c: char)
    ensures Join(Split(s, c), c) == s
    decreases |s|
  {
    SplitFirst(s, c);
    if c in s {
      var parts := Split(s, c);
      assert parts[1..] == Split(After(s, c), c);
      JoinSplit(After(s, c), c);
    }
  }

  /** Splitting the join of separator-free pieces gives back the pieces. */
  lemma {:induction false} SplitJoin(parts: seq<string>, c: char)
    requires |parts| >= 1
    requires forall i :: 0 <= i < |parts| ==> c !in parts[i]
    ensures Split(Join(parts, c), c) == parts
  {
    if |parts| == 1 {
      SplitNoSeparator(parts[0], c);
    } else {
      SplitJoin(parts[1..], c);
      SplitAtSeparator(parts[0], Join(parts[1..], c), c);
    }
  }

  /** `s.split(c)[0]` is the text before the first separator; it is never `undefined`. */
  lemma SplitPieceZero(s: string, c: char)
    ensures At(Split(s, c), 0) == Some(Before(s, c))
  {
    SplitFirst(s, c);
  }

  /**
   * `s.split(c)[1]` is `undefined` exactly when `s` has no separator, and
   * otherwise the text between the first and the second separator.
   */
  lemma SplitPieceOne(s: string, c: char)
    ensures At(Split(s, c), 1).None? <==> c !in s
    ensures c in s ==> At(Split(s, c), 1) == Some(Before(After(s, c), c))
  {
    SplitFirst(s, c);
    if c in s {
      SplitFirst(After(s, c), c);
    }
  }
}
