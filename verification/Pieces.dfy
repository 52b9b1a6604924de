/**
 * Cutting text at a separator the way three loops of the library do it: at '?' for bind
 * values, at newlines for lines, at tabs for fields.  A separator at the very end ends the
 * last piece instead of starting an empty one.
 */
module Pieces {
  /** The first separator, or the end. */
  function IndexOf(sep: char, s: string): (k: nat)
    ensures k <= |s| && forall i :: 0 <= i < k ==> s[i] != sep
    ensures k < |s| ==> s[k] == sep
  {
    if s == [] || s[0] == sep then 0 else 1 + IndexOf(sep, s[1..])
  }

  /** The separator at k is the first one. */
  lemma IndexOfIs(sep: char, s: string, k: nat)
    requires k <= |s| && (forall i :: 0 <= i < k ==> s[i] != sep) && (k < |s| ==> s[k] == sep)
    ensures IndexOf(sep, s) == k
  {
  }

  function Cut(sep: char, s: string): (pieces: seq<string>)
    ensures forall piece :: piece in pieces ==> sep !in piece
    decreases |s|
  {
    if s == [] then []
    else
      var k := IndexOf(sep, s);
      [s[..k]] + if k < |s| then Cut(sep, s[k + 1..]) else []
  }

  lemma CutFirst(sep: char, piece: string, rest: string)
    requires sep !in piece
    ensures Cut(sep, piece + [sep] + rest) == [piece] + Cut(sep, rest)
  {
    var s := piece + [sep] + rest;
    assert s[..|piece|] == piece;
    IndexOfIs(sep, s, |piece|);
    assert s[|piece| + 1..] == rest;
  }

  /** A scan: the next piece starts at `begin` and ends at `end`, with a separator or the text. */
  lemma CutNext(sep: char, s: string, begin: nat, end: nat)
    requires begin <= end <= |s| && begin < |s|
    requires (forall i :: begin <= i < end ==> s[i] != sep) && (end < |s| ==> s[end] == sep)
    ensures Cut(sep, s[begin..]) == [s[begin..end]] + Cut(sep, s[if end < |s| then end + 1 else end..])
  {
    var rest := s[begin..];
    IndexOfIs(sep, rest, end - begin);
    hide IndexOf;
    assert rest[..end - begin] == s[begin..end];
    if end < |s| {
      assert rest[end - begin + 1..] == s[end + 1..];
    } else {
      assert s[end..] == [];
    }
  }

  /** The usual split: one piece more than there are separators. */
  function Split(sep: char, s: string): (pieces: seq<string>)
    ensures pieces != []
    decreases |s|
  {
    var k := IndexOf(sep, s);
    if k < |s| then [s[..k]] + Split(sep, s[k + 1..]) else [s]
  }

  function Join(sep: char, pieces: seq<string>): string
    requires pieces != []
  {
    if |pieces| == 1 then pieces[0] else pieces[0] + [sep] + Join(sep, pieces[1..])
  }

  lemma JoinFirst(sep: char, piece: string, rest: seq<string>)
    requires rest != []
    ensures Join(sep, [piece] + rest) == piece + [sep] + Join(sep, rest)
  {
    assert ([piece] + rest)[1..] == rest;
  }

  /** No piece holds the separator. */
  lemma {:induction false} SplitClean(sep: char, s: string, i: nat)
    requires i < |Split(sep, s)|
    ensures sep !in Split(sep, s)[i]
    decreases |s|
  {
    var k := IndexOf(sep, s);
    if k < |s| && i > 0 {
      SplitClean(sep, s[k + 1..], i - 1);
    }
  }

  /** Splitting loses nothing. */
  lemma {:induction false} SplitJoins(sep: char, s: string)
    ensures Join(sep, Split(sep, s)) == s
    decreases |s|
  {
    var k := IndexOf(sep, s);
    if k < |s| {
      SplitJoins(sep, s[k + 1..]);
      assert Split(sep, s) == [s[..k]] + Split(sep, s[k + 1..]);
      hide Split, IndexOf;
      JoinFirst(sep, s[..k], Split(sep, s[k + 1..]));
      assert s == s[..k] + [sep] + s[k + 1..];
    }
  }

  /** Cutting is splitting, less a last piece that is empty. */
  lemma {:induction false} CutIsSplit(sep: char, s: string)
    ensures var pieces := Split(sep, s);
            var last := |pieces| - 1;
            Cut(sep, s) == if pieces[last] == [] then pieces[..last] else pieces
    decreases |s|
  {
    hide IndexOf;
    var k := IndexOf(sep, s);
    if k < |s| {
      var rest := s[k + 1..];
      CutIsSplit(sep, rest);
      assert Split(sep, s) == [s[..k]] + Split(sep, rest);
      assert Split(sep, s)[..|Split(sep, s)| - 1] == [s[..k]] + Split(sep, rest)[..|Split(sep, rest)| - 1];
    } else {
      assert s[..k] == s;
    }
  }

  /** Joining and splitting are inverse, when no piece holds a separator. */
  lemma {:induction false} JoinSplits(sep: char, pieces: seq<string>)
    requires pieces != [] && forall i :: 0 <= i < |pieces| ==> sep !in pieces[i]
    ensures Split(sep, Join(sep, pieces)) == pieces
    decreases |pieces|
  {
    if |pieces| == 1 {
      IndexOfIs(sep, pieces[0], |pieces[0]|);
    } else {
      var rest := Join(sep, pieces[1..]);
      JoinSplits(sep, pieces[1..]);
      SplitFirst(sep, pieces[0], rest);
    }
  }

  lemma SplitFirst(sep: char, piece: string, rest: string)
    requires sep !in piece
    ensures Split(sep, piece + [sep] + rest) == [piece] + Split(sep, rest)
  {
    var s := piece + [sep] + rest;
    IndexOfIs(sep, s, |piece|);
    hide IndexOf;
    assert s[..|piece|] == piece;
    assert s[|piece| + 1..] == rest;
  }

  /** Every piece is made of characters of the text. */
  lemma {:induction false} CutKeeps(sep: char, s: string, i: nat)
    requires i < |Cut(sep, s)|
    ensures sep !in Cut(sep, s)[i] && forall x :: x in Cut(sep, s)[i] ==> x in s
    decreases |s|
  {
    var k := IndexOf(sep, s);
    if i > 0 {
      var rest := s[k + 1..];
      assert Cut(sep, s) == [s[..k]] + Cut(sep, rest);
      hide Cut, IndexOf;
      CutKeeps(sep, rest, i - 1);
      assert forall x :: x in rest ==> x in s;
    } else {
      assert Cut(sep, s)[0] == s[..k];
      hide Cut, IndexOf;
      assert forall x :: x in s[..k] ==> x in s;
    }
  }
}
