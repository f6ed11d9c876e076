/** Python's `str.split(sep)` for a one-character separator, and its inverse
    `sep.join(pieces)`. */
module Text {

  /** `sep.join(pieces)`. */
  function Join(pieces: seq<string>, sep: char): string
  {
    if |pieces| == 0 then ""
    else if |pieces| == 1 then pieces[0]
    else pieces[0] + [sep] + Join(pieces[1..], sep)
  }

  /** `s.split(sep)`: the maximal separator-free pieces, in order. There is
      always at least one piece (`"".split("|") == [""]`), and there is more than
      one exactly when the separator occurs. */
  function Split(s: string, sep: char): (r: seq<string>)
    ensures |r| >= 1
    ensures forall i :: 0 <= i < |r| ==> sep !in r[i]
    ensures (|r| > 1) == (sep in s)
    ensures Join(r, sep) == s
    decreases |s|
  {
    if |s| == 0 then [""]
    else
      var rest := Split(s[1..], sep);
      if s[0] == sep then
        assert s == [s[0]] + s[1..];
        [""] + rest
      else
        var first := [s[0]] + rest[0];
        JoinCons(rest, sep, s[0]);
        assert s == [s[0]] + s[1..];
        [first] + rest[1..]
  }

  /** Prepending a character to the first piece prepends it to the joined text. */
  lemma JoinCons(pieces: seq<string>, sep: char, c: char)
    requires |pieces| >= 1
    ensures Join([[c] + pieces[0]] + pieces[1..], sep) == [c] + Join(pieces, sep)
  {
    var q := [[c] + pieces[0]] + pieces[1..];
    assert q[1..] == pieces[1..];
  }

  /** The other half of the round trip: splitting a join of separator-free
      pieces gives the pieces back. */
  lemma {:induction false} SplitJoin(pieces: seq<string>, sep: char)
    requires |pieces| >= 1
    requires forall i :: 0 <= i < |pieces| ==> sep !in pieces[i]
    ensures Split(Join(pieces, sep), sep) == pieces
    decreases |pieces|, |pieces[0]|
  {
    if |pieces| == 1 {
      SplitFree(pieces[0], sep);
    } else if |pieces[0]| == 0 {
      var tail := Join(pieces[1..], sep);
      assert Join(pieces, sep) == [sep] + tail;
      SplitJoin(pieces[1..], sep);
      SplitAfterSeparator(tail, sep);
      assert pieces == [""] + pieces[1..];
    } else {
      var c := pieces[0][0];
      var shorter := [pieces[0][1..]] + pieces[1..];
      assert pieces[0] == [c] + pieces[0][1..];
      assert shorter[1..] == pieces[1..];
      JoinCons(shorter, sep, c);
      assert [[c] + shorter[0]] + shorter[1..] == pieces;
      SplitJoin(shorter, sep);
      SplitAfterChar(c, Join(shorter, sep), sep);
    }
  }

  /** A leading separator closes an empty first piece. */
  lemma SplitAfterSeparator(t: string, sep: char)
    ensures Split([sep] + t, sep) == [""] + Split(t, sep)
  {
    assert ([sep] + t)[1..] == t;
  }

  /** A leading character other than the separator starts the first piece. */
  lemma SplitAfterChar(c: char, t: string, sep: char)
    requires c != sep
    ensures Split([c] + t, sep) == [[c] + Split(t, sep)[0]] + Split(t, sep)[1..]
  {
    assert ([c] + t)[1..] == t;
  }

  /** A separator-free string is its own only piece. */
  lemma {:induction false} SplitFree(s: string, sep: char)
    requires sep !in s
    ensures Split(s, sep) == [s]
  {
  }
}
