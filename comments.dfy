/** `comments2dict`: the SNOTEL site-comments string, `key=value` pairs separated
    by `|`, parsed into a dictionary. Both libraries carry the same code (the
    SNOTEL one nests it inside `all_snotel_sites`). */
module Comments {
  import opened Wrappers
  import opened Text

  /** The `|`-separated pieces of a comment string. */
  function Pieces(comment: string): seq<string>
  {
    Split(comment, '|')
  }

  /** `piece.split('=')[0]`: the text before the first `=`. */
  function Key(piece: string): string
  {
    Split(piece, '=')[0]
  }

  /** `piece.split('=')[1]`: the text between the first and the second `=`;
      Python raises an IndexError when the piece holds no `=`. */
  function Value(piece: string): string
    requires '=' in piece
  {
    Split(piece, '=')[1]
  }

  /** Where the key and the value sit inside a piece. */
  lemma KeyValueLayout(piece: string)
    requires '=' in piece
    ensures '=' !in Key(piece) && '=' !in Value(piece)
    ensures var k, v := Key(piece), Value(piece);
      && |k| + 1 + |v| <= |piece|
      && piece[..|k|] == k && piece[|k|] == '='
      && piece[|k| + 1..|k| + 1 + |v|] == v
      && (|k| + 1 + |v| == |piece| || piece[|k| + 1 + |v|] == '=')
  {
    var r := Split(piece, '=');
    var tail := Join(r[1..], '=');
    assert piece == r[0] + ['='] + tail;
    if |r| == 2 {
      assert tail == r[1];
    } else {
      assert tail == r[1] + ['='] + Join(r[2..], '=');
    }
  }

  /** Whether every piece holds an `=`; if one does not, the comprehension that
      collects the values raises. */
  predicate AllPiecesHaveValue(pieces: seq<string>)
  {
    forall i :: 0 <= i < |pieces| ==> '=' in pieces[i]
  }

  /** Position `i` holds the last occurrence of its key. */
  ghost predicate LastOccurrence<K>(keys: seq<K>, i: int)
    requires 0 <= i < |keys|
  {
    forall j :: i < j < |keys| ==> keys[j] != keys[i]
  }

  /** `dict(zip(keys, vals))`: pairs are inserted in order, so a later pair
      overwrites an earlier one with the same key. */
  function ZipDict<K(!new), W>(keys: seq<K>, vals: seq<W>): (d: map<K, W>)
    requires |keys| == |vals|
    ensures forall k :: k in d <==> k in keys
    ensures forall i :: 0 <= i < |keys| && LastOccurrence(keys, i) ==> keys[i] in d && d[keys[i]] == vals[i]
    decreases |keys|
  {
    if |keys| == 0 then map[]
    else
      var n := |keys| - 1;
      var d0 := ZipDict(keys[..n], vals[..n]);
      ZipDictStep(keys, vals, d0);
      d0[keys[n] := vals[n]]
  }

  /** One insertion of `dict(zip(...))`: the last pair is added to the
      dictionary of the pairs before it. */
  lemma ZipDictStep<K(!new), W>(keys: seq<K>, vals: seq<W>, d0: map<K, W>)
    requires |keys| == |vals| >= 1
    requires var n := |keys| - 1;
      && (forall k :: k in d0 <==> k in keys[..n])
      && (forall i :: 0 <= i < n && LastOccurrence(keys[..n], i) ==> keys[i] in d0 && d0[keys[i]] == vals[i])
    ensures var n := |keys| - 1;
      var d := d0[keys[n] := vals[n]];
      && (forall k :: k in d <==> k in keys)
      && (forall i :: 0 <= i < |keys| && LastOccurrence(keys, i) ==> keys[i] in d && d[keys[i]] == vals[i])
  {
    var n := |keys| - 1;
    assert keys == keys[..n] + [keys[n]];
    forall i | 0 <= i < n && LastOccurrence(keys, i)
      ensures LastOccurrence(keys[..n], i)
    {
    }
  }

  /** The keys of the pieces, in order. */
  function Keys(pieces: seq<string>): (ks: seq<string>)
    ensures |ks| == |pieces|
  {
    seq(|pieces|, i requires 0 <= i < |pieces| => Key(pieces[i]))
  }

  /** The values of the pieces, in order. */
  function Values(pieces: seq<string>): (vs: seq<string>)
    requires AllPiecesHaveValue(pieces)
    ensures |vs| == |pieces|
  {
    seq(|pieces|, i requires 0 <= i < |pieces| => Value(pieces[i]))
  }

  /** `comments2dict`: `None` when some piece holds no `=` (the IndexError the
      Python code raises, which includes the empty comment string); otherwise
      the dictionary whose keys are the pieces' keys and in which each key maps
      to the value of the last piece carrying it. */
  function Comments2Dict(comment: string): (r: Option<map<string, string>>)
    ensures r.None? <==> !AllPiecesHaveValue(Pieces(comment))
    ensures r.Some? ==> forall k :: k in r.value <==> k in Keys(Pieces(comment))
    ensures r.Some? ==> forall i :: 0 <= i < |Pieces(comment)| && LastOccurrence(Keys(Pieces(comment)), i) ==>
      r.value[Keys(Pieces(comment))[i]] == Values(Pieces(comment))[i]
  {
    var pieces := Pieces(comment);
    if AllPiecesHaveValue(pieces) then Some(ZipDict(Keys(pieces), Values(pieces))) else None
  }

  /** The empty comment string is one empty piece, so it has no value and
      `comments2dict("")` raises. */
  lemma EmptyCommentFails()
    ensures Comments2Dict("") == None
  {
    assert Pieces("") == [""];
  }

  /** A piece without `=` anywhere in the comment makes the whole parse fail,
      whatever the other pieces hold. */
  lemma {:induction false} PieceWithoutValueFails(pieces: seq<string>, i: int)
    requires |pieces| >= 1
    requires forall j :: 0 <= j < |pieces| ==> '|' !in pieces[j]
    requires 0 <= i < |pieces| && '=' !in pieces[i]
    ensures Comments2Dict(Join(pieces, '|')) == None
  {
    SplitJoin(pieces, '|');
  }

  /** Parsing a comment built from `key=value` pieces gives back each key with
      the value of its last occurrence. */
  lemma {:induction false} ParseBuiltComment(keys: seq<string>, vals: seq<string>, i: int)
    requires |keys| == |vals| >= 1
    requires forall j :: 0 <= j < |keys| ==> '|' !in keys[j] && '=' !in keys[j]
    requires forall j :: 0 <= j < |vals| ==> '|' !in vals[j] && '=' !in vals[j]
    requires 0 <= i < |keys| && forall j :: i < j < |keys| ==> keys[j] != keys[i]
    ensures var r := Comments2Dict(Join(Pairs(keys, vals), '|'));
      r.Some? && keys[i] in r.value && r.value[keys[i]] == vals[i]
  {
    var pieces := Pairs(keys, vals);
    forall j | 0 <= j < |pieces|
      ensures '|' !in pieces[j] && '=' in pieces[j]
      ensures Key(pieces[j]) == keys[j] && Value(pieces[j]) == vals[j]
    {
      PairSplit(keys[j], vals[j]);
      assert pieces[j] == keys[j] + "=" + vals[j];
    }
    SplitJoin(pieces, '|');
    assert Pieces(Join(pieces, '|')) == pieces;
    assert Keys(pieces) == keys;
    assert Values(pieces) == vals;
    assert LastOccurrence(keys, i);
  }

  /** The pieces `key=value`, pairwise. */
  function Pairs(keys: seq<string>, vals: seq<string>): (r: seq<string>)
    requires |keys| == |vals|
    ensures |r| == |keys|
    ensures forall j :: 0 <= j < |r| ==> r[j] == keys[j] + "=" + vals[j]
  {
    seq(|keys|, j requires 0 <= j < |keys| => keys[j] + "=" + vals[j])
  }

  lemma PairSplit(k: string, v: string)
    requires '=' !in k && '=' !in v
    ensures '|' !in k + "=" + v <== '|' !in k && '|' !in v
    ensures Split(k + "=" + v, '=') == [k, v]
  {
    assert Join([k, v], '=') == k + "=" + v;
    SplitJoin([k, v], '=');
  }
}
