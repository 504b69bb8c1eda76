/** rh_parse_urlencoded_form: `k=v&k=v` text is split into a case-insensitive index. */
module Forms {
  import opened CStrings
  import opened ParserTree
  import opened PercentCoding

  /** The first piece of a text: raw key, raw value, and what follows the ampersand. */
  datatype Piece = Piece(key: CString, value: CString, rest: CString)

  function FirstPiece(s: CString): (r: Option<Piece>)
    ensures r.Some? ==> |r.value.rest| < |s|
  {
    var i := Span(s, '=');
    if i == |s| then None
    else
      var tail := s[i + 1..];
      Some(CutPiece(s[..i], tail, Span(tail, '&')))
  }

  /** The piece of a key and the text behind its equals sign, whose value has n characters. */
  function CutPiece(key: CString, tail: CString, n: nat): (r: Piece)
    requires n <= |tail|
    ensures r.key == key && |r.value| == n && |r.rest| <= |tail|
  {
    Piece(key, tail[..n], if n < |tail| then tail[n + 1..] else [])
  }

  function WritePair(m: Index, key: CString, value: CString): Index {
    m[Fold(key) := Some(value)]
  }

  /** The decoded pairs of the text written in order into m; None if a piece has no equals sign. */
  function FormRun(m: Index, data: CString): Option<Index>
    decreases |data|
  {
    if data == [] then Some(m)
    else
      match FirstPiece(data)
      case None => None
      case Some(p) => FormRun(WritePair(m, DecodeText(p.key), DecodeText(p.value)), p.rest)
  }

  method FindChar(data: CString, from: nat, c: char) returns (i: nat)
    requires from <= |data| && c != '\0'
    ensures i == Span(data[from..], c)
  {
    i := 0;
    ghost var s := data[from..];
    while At(data, from + i) != '\0' && At(data, from + i) != c
      invariant from + i <= |data| && Span(s, c) == i + Span(s[i..], c)
      decreases |data| - from - i
    {
      assert s[i] == data[from + i] && s[i..][1..] == s[i + 1..];
      i := i + 1;
    }
    assert i < |s| ==> s[i] == data[from + i];
  }

  method ParseUrlencodedForm(data: CString) returns (tree: Tree?)
    ensures tree == null <==> FormRun(map[], data) == None
    ensures tree != null ==> tree.Valid() && fresh(tree.live) && FormRun(map[], data) == Some(tree.Map())
  {
    hide Span, FirstPiece, DecodeText, Tree.Valid, Tree.Map, Tree.Key, Tree.Value, StrNCpyText;
    tree := new Tree();
    var p := 0;
    assert data[0..] == data;
    while At(data, p) != '\0'
      invariant p <= |data| && tree.Valid() && fresh(tree.live)
      invariant tree.Key() == None && tree.Value() == None
      invariant FormRun(map[], data) == FormRun(tree.Map(), data[p..])
      decreases |data| - p
    {
      var i := FindChar(data, p, '=');
      PieceAt(data, p);
      if At(data, p + i) == '\0' {
        tree.Abort();
        tree.FreeTree();
        return null;
      }
      p := StorePair(tree, data, p, i);
    }
    FormEnd(tree.Map(), data, p);
  }

  /** One pair: the key ends at the equals sign, the value at the ampersand or at the end. */
  method StorePair(tree: Tree, data: CString, p0: nat, i0: nat) returns (p: nat)
    requires tree.Valid() && tree.Key() == None && tree.Value() == None
    requires p0 + i0 < |data| && i0 == Span(data[p0..], '=')
    modifies tree.live
    ensures tree.Valid() && fresh(tree.live - old(tree.live)) && tree.Key() == None && tree.Value() == None
    ensures p0 < p <= |data|
    ensures FormRun(old(tree.Map()), data[p0..]) == FormRun(tree.Map(), data[p..])
  {
    hide Span, FormRun, DecodeText, Tree.Valid, Tree.Map, Tree.Key, Tree.Value, StrNCpyText;
    ghost var was := tree.Map();
    var i := i0 + 1;
    KeyPart(data, p0, i0);
    tree.UpdateKey(data[p0..], i);
    p := p0 + i;
    i := FindChar(data, p, '&');
    SpanBound(data, p, '&');
    KeyPart(data, p, i);
    ghost var j := p + i;
    tree.UpdateValue(data[p..], i + 1);
    if At(data, p + i) != '\0' {
      i := i + 1;
    }
    p := p + i;
    PendingKey(tree);
    var ok := tree.Push(Some(DecodeText));
    FormStep(was, data, p0, p0 + i0, j, p);
  }

  lemma SpanBound(data: CString, p: nat, c: char)
    requires p <= |data|
    ensures p + Span(data[p..], c) <= |data|
  {
  }

  /** The piece from p with its equals sign at i and its end at j. */
  function PieceOf(data: CString, p: nat, i: nat, j: nat): Piece
    requires p <= i < j <= |data|
  {
    Piece(data[p..i], data[i + 1..j], data[if j < |data| then j + 1 else j..])
  }

  /** The first piece, in terms of positions in the whole text. */
  lemma PieceAt(data: CString, p: nat)
    requires p < |data|
    ensures var i := p + Span(data[p..], '=');
            && i <= |data|
            && (i == |data| ==> FirstPiece(data[p..]) == None)
            && (i < |data| ==>
                  var j := i + 1 + Span(data[i + 1..], '&');
                  && j <= |data|
                  && FirstPiece(data[p..]) == Some(PieceOf(data, p, i, j)))
  {
    hide Span, FirstPiece;
    var n := Span(data[p..], '=');
    if n < |data| - p {
      PieceFrom(data, p, n, Span(data[p + n + 1..], '&'));
    } else {
      NoPiece(data[p..]);
    }
  }

  lemma FormStep(m: Index, data: CString, p: nat, i: nat, j: nat, next: nat)
    requires p <= i < j <= |data| && i == p + Span(data[p..], '=') && j == i + 1 + Span(data[i + 1..], '&')
    requires next == if At(data, j) != '\0' then j + 1 else j
    ensures FormRun(m, data[p..]) ==
            FormRun(WritePair(m, DecodeText(data[p..i]), DecodeText(data[i + 1..j])), data[next..])
  {
    hide Span, FirstPiece, DecodeText, WritePair;
    AtEnd(data, j);
    PieceAt(data, p);
  }

  lemma PieceFrom(data: CString, p: nat, n: nat, m: nat)
    requires p + n < |data| && n == Span(data[p..], '=') && m == Span(data[p + n + 1..], '&')
    ensures p + n + 1 + m <= |data|
    ensures var i, j := p + n, p + n + 1 + m;
            FirstPiece(data[p..]) == Some(PieceOf(data, p, i, j))
  {
    hide Span, FirstPiece, CutPiece, PieceOf;
    DropTwice(data, p, n + 1);
    PieceParts(data[p..], data[p + n + 1..], n, m);
    PieceOfText(data, p, n, m);
  }

  lemma PieceParts(s: CString, tail: CString, n: nat, m: nat)
    requires n == Span(s, '=') < |s| && tail == s[n + 1..] && m == Span(tail, '&')
    ensures FirstPiece(s) == Some(CutPiece(s[..n], tail, m))
  {
    hide Span, CutPiece;
  }

  lemma NoPiece(s: CString)
    requires Span(s, '=') == |s|
    ensures FirstPiece(s) == None
  {
    hide Span, CutPiece;
  }

  lemma PieceOfText(data: CString, p: nat, n: nat, m: nat)
    requires p + n + 1 + m <= |data|
    ensures CutPiece(data[p..][..n], data[p + n + 1..], m) == PieceOf(data, p, p + n, p + n + 1 + m)
  {
    var tail := data[p + n + 1..];
    assert data[p..][..n] == data[p..p + n];
    assert tail[..m] == data[p + n + 1..p + n + 1 + m];
    if m < |tail| {
      DropTwice(data, p + n + 1, m + 1);
    }
  }

  lemma AtEnd(s: CString, i: nat)
    ensures At(s, i) == '\0' <==> i >= |s|
  {
  }

  lemma FormEnd(m: Index, data: CString, p: nat)
    requires p <= |data| && At(data, p) == '\0'
    ensures FormRun(m, data[p..]) == Some(m)
  {
    AtEnd(data, p);
  }

  lemma KeyPart(data: CString, p: nat, n: nat)
    requires p + n <= |data|
    ensures StrNCpyText(data[p..], n + 1) == data[p..p + n] && "" + data[p..p + n] == data[p..p + n]
  {
    CStrOfCString(data[p..]);
    assert data[p..][..n] == data[p..p + n];
  }

  // ------------------------------------------------------------------------------------------
  // Round trip

  /** A key and a value, with the text an encoder has made of them. */
  datatype Field = Field(key: CString, value: CString, encodedKey: CString, encodedValue: CString)

  ghost predicate GoodField(f: Field) {
    && Encodes(f.encodedKey, f.key) && '=' !in f.encodedKey
    && Encodes(f.encodedValue, f.value) && '&' !in f.encodedValue
  }

  function PrintForm(fs: seq<Field>): CString {
    if fs == [] then []
    else fs[0].encodedKey + ("=" + (fs[0].encodedValue + if |fs| == 1 then [] else "&" + PrintForm(fs[1..])))
  }

  function WriteFields(m: Index, fs: seq<Field>): Index
    decreases |fs|
  {
    if fs == [] then m else WriteFields(WritePair(m, fs[0].key, fs[0].value), fs[1..])
  }

  lemma {:induction false} SpanOf(a: seq<char>, c: char, rest: seq<char>)
    requires c !in a && (rest == [] || rest[0] == c)
    ensures Span(a + rest, c) == |a|
    decreases |a|
  {
    if a == [] {
      assert a + rest == rest;
    } else {
      assert (a + rest)[1..] == a[1..] + rest;
      SpanOf(a[1..], c, rest);
    }
  }

  lemma SplitField(key: CString, value: CString, rest: CString)
    requires '=' !in key && '&' !in value && (rest == [] || rest[0] == '&')
    ensures FirstPiece(key + ("=" + (value + rest))) == Some(Piece(key, value, if rest == [] then [] else rest[1..]))
  {
    hide Span;
    SpanOf(key, '=', "=" + (value + rest));
    var s := key + ("=" + (value + rest));
    assert s[..|key|] == key && s[|key| + 1..] == value + rest;
    SpanOf(value, '&', rest);
    assert (value + rest)[..|value|] == value;
    assert rest != [] ==> (value + rest)[|value| + 1..] == rest[1..];
  }

  lemma DecodesTo(e: CString, s: CString)
    requires Encodes(e, s)
    ensures DecodeText(e) == s
  {
    DecodeUndoesEncode(e, s);
    CStrOfCString(s);
  }

  /** Parsing a printed form gives back the pairs, written in order, for every encoder. */
  lemma {:induction false} FormParseUndoesPrint(m: Index, fs: seq<Field>)
    requires forall k :: 0 <= k < |fs| ==> GoodField(fs[k])
    ensures FormRun(m, PrintForm(fs)) == Some(WriteFields(m, fs))
    decreases |fs|
  {
    hide Encodes, DecodeText, WritePair, FirstPiece;
    if fs != [] {
      var f := fs[0];
      var rest: CString := if |fs| == 1 then [] else "&" + PrintForm(fs[1..]);
      SplitField(f.encodedKey, f.encodedValue, rest);
      DecodesTo(f.encodedKey, f.key);
      DecodesTo(f.encodedValue, f.value);
      if |fs| == 1 {
        assert fs[1..] == [];
      } else {
        assert rest[1..] == PrintForm(fs[1..]);
      }
      FormParseUndoesPrint(WritePair(m, f.key, f.value), fs[1..]);
    }
  }

  /** A last piece without an equals sign makes the whole result NULL, unless it is empty. */
  lemma {:induction false} PieceWithoutEquals(m: Index, fs: seq<Field>, piece: CString)
    requires (forall k :: 0 <= k < |fs| ==> GoodField(fs[k])) && fs != [] && '=' !in piece
    ensures FormRun(m, PrintForm(fs) + ("&" + piece)) == if piece == [] then Some(WriteFields(m, fs)) else None
    decreases |fs|
  {
    hide Encodes, DecodeText, WritePair, FirstPiece;
    var f := fs[0];
    var end := "&" + piece;
    var rest: CString := if |fs| == 1 then end else "&" + (PrintForm(fs[1..]) + end);
    assert PrintForm(fs) + end == f.encodedKey + ("=" + (f.encodedValue + rest));
    SplitField(f.encodedKey, f.encodedValue, rest);
    DecodesTo(f.encodedKey, f.key);
    DecodesTo(f.encodedValue, f.value);
    var m' := WritePair(m, f.key, f.value);
    if |fs| == 1 {
      assert fs[1..] == [] && rest[1..] == piece;
      NoEquals(m', piece);
    } else {
      assert rest[1..] == PrintForm(fs[1..]) + end;
      PieceWithoutEquals(m', fs[1..], piece);
    }
  }

  lemma NoEquals(m: Index, piece: CString)
    requires '=' !in piece
    ensures FormRun(m, piece) == if piece == [] then Some(m) else None
  {
    hide Span;
    SpanOf(piece, '=', []);
    assert piece + [] == piece;
  }

  /** The value of the last field with this key, case aside. */
  function LastField(fs: seq<Field>, k: CString): Option<CString> {
    if fs == [] then None
    else if SameAsideCase(fs[|fs| - 1].key, k) then Some(fs[|fs| - 1].value)
    else LastField(fs[..|fs| - 1], k)
  }

  lemma {:induction false} WriteFieldsSplit(m: Index, a: seq<Field>, f: Field)
    ensures WriteFields(m, a + [f]) == WritePair(WriteFields(m, a), f.key, f.value)
    decreases |a|
  {
    if a == [] {
      assert [f][1..] == [] && a + [f] == [f];
    } else {
      assert (a + [f])[1..] == a[1..] + [f];
      WriteFieldsSplit(WritePair(m, a[0].key, a[0].value), a[1..], f);
    }
  }

  lemma PairThenLookup(m: Index, key: CString, value: CString, k: CString)
    ensures MapLookup(WritePair(m, key, value), k) == if SameAsideCase(key, k) then Some(value) else MapLookup(m, k)
  {
    hide SameAsideCase;
    SameFold(key, k);
  }

  /** Looking a key up after parsing gives its last decoded value, and nothing for an absent key. */
  lemma {:induction false} FormLookup(fs: seq<Field>, k: CString)
    ensures MapLookup(WriteFields(map[], fs), k) == LastField(fs, k)
    decreases |fs|
  {
    hide SameAsideCase, MapLookup, WritePair;
    if fs == [] {
      LookupAfterWrite(map[], [], None, k);
    } else {
      var front, f := fs[..|fs| - 1], fs[|fs| - 1];
      FormLookup(front, k);
      WriteFieldsSplit(map[], front, f);
      assert fs == front + [f];
      PairThenLookup(WriteFields(map[], front), f.key, f.value, k);
    }
  }
}
