/**
 `String.prototype.split(' ')`: a string cut at every single space into the pieces
 between them. An empty string gives one empty piece; two adjacent spaces give an
 empty piece between them. `Join` glues pieces back with single spaces and is the
 inverse of `Split` in both directions.
 */
module Text {

  /** The position of the first space in `s`. */
  function FirstSpace(s: string): (k: nat)
    requires ' ' in s
    ensures k < |s| && s[k] == ' '
    ensures ' ' !in s[..k]
  {
    if s[0] == ' ' then 0
    else
      assert ' ' in s[1..] by { assert s == [s[0]] + s[1..]; }
      var k := 1 + FirstSpace(s[1..]);
      assert s[..k] == [s[0]] + s[1..][..k - 1];
      k
  }

  /** The pieces of `s` between its spaces, in order. */
  function Split(s: string): (r: seq<string>)
    ensures |r| >= 1
    ensures forall i :: 0 <= i < |r| ==> ' ' !in r[i]
    ensures |r| == 1 <==> ' ' !in s
    decreases |s|
  {
    if ' ' !in s then [s]
    else
      var k := FirstSpace(s);
      [s[..k]] + Split(s[k + 1..])
  }

  /** The pieces glued together with one space between neighbours. */
  function Join(pieces: seq<string>): (r: string)
    requires |pieces| >= 1
    ensures |pieces| == 1 ==> r == pieces[0]
    decreases |pieces|
  {
    if |pieces| == 1 then pieces[0]
    else pieces[0] + " " + Join(pieces[1..])
  }

  /** Gluing the pieces of a split gives the original string back. */
  lemma {:induction false} JoinSplit(s: string)
    ensures Join(Split(s)) == s
    decreases |s|
  {
    if ' ' in s {
      var k := FirstSpace(s);
      var head, tail := s[..k], s[k + 1..];
      var pieces := Split(s);
      assert pieces == [head] + Split(tail);
      assert pieces[0] == head;
      assert pieces[1..] == Split(tail);
      JoinSplit(tail);
      assert Join(pieces) == head + " " + tail;
      assert s == head + " " + tail;
    }
  }

  /** A space-free word followed by a space splits into that word and the pieces of the rest. */
  lemma SplitAfterWord(a: string, b: string)
    requires ' ' !in a
    ensures Split(a + " " + b) == [a] + Split(b)
  {
    var s := a + " " + b;
    assert s[|a|] == ' ';
    var k := FirstSpace(s);
    assert k == |a|;
    assert s[..k] == a;
    assert s[k + 1..] == b;
  }

  /** Splitting pieces that were glued with single spaces gives the same pieces back. */
  lemma {:induction false} SplitJoin(pieces: seq<string>)
    requires |pieces| >= 1
    requires forall i :: 0 <= i < |pieces| ==> ' ' !in pieces[i]
    ensures Split(Join(pieces)) == pieces
    decreases |pieces|
  {
    if |pieces| > 1 {
      SplitJoin(pieces[1..]);
      SplitAfterWord(pieces[0], Join(pieces[1..]));
      assert pieces == [pieces[0]] + pieces[1..];
    }
  }

  /** The first piece of a split is the text before the first space. */
  lemma FirstPiece(t: string, rest: string)
    requires ' ' !in t
    requires rest == [] || rest[0] == ' '
    ensures Split(t + rest)[0] == t
  {
    if rest != [] {
      assert t + rest == t + " " + rest[1..];
      SplitAfterWord(t, rest[1..]);
    } else {
      assert t + rest == t;
    }
  }
}
