/**
 * The piece table behind the document text (`piece_tree.rs`).
 *
 * A tree holds the read-only original buffer, an append-only buffer of
 * inserted text and a sequence of pieces; each piece names a buffer and a
 * byte range inside it, and the document text is the concatenation of the
 * pieces' ranges in order.  Offsets are byte offsets; the model treats one
 * `char` as one byte, which is exact for ASCII text.
 */
module PieceTree {

  datatype Source = Original | Add

  datatype Piece = Piece(source: Source, start: nat, length: nat)

  datatype Tree = Tree(original: string, added: string, pieces: seq<Piece>)

  function Buffer(original: string, added: string, src: Source): string
  {
    match src
    case Original => original
    case Add => added
  }

  /** The piece's range lies inside its buffer. */
  predicate Fits(original: string, added: string, p: Piece)
  {
    p.start + p.length <= |Buffer(original, added, p.source)|
  }

  predicate AllFit(original: string, added: string, ps: seq<Piece>)
  {
    forall i :: 0 <= i < |ps| ==> Fits(original, added, ps[i])
  }

  /** The piece/buffer invariant of a tree. */
  predicate Valid(t: Tree)
  {
    AllFit(t.original, t.added, t.pieces)
  }

  function Slice(original: string, added: string, p: Piece): (r: string)
    requires Fits(original, added, p)
    ensures |r| == p.length
  {
    Buffer(original, added, p.source)[p.start..p.start + p.length]
  }

  /** Sum of the piece lengths. */
  function TotalLength(ps: seq<Piece>): nat
  {
    if |ps| == 0 then 0 else ps[0].length + TotalLength(ps[1..])
  }

  /** The text the pieces spell out, in order. */
  function Concat(original: string, added: string, ps: seq<Piece>): (r: string)
    requires AllFit(original, added, ps)
    ensures |r| == TotalLength(ps)
  {
    if |ps| == 0 then [] else Slice(original, added, ps[0]) + Concat(original, added, ps[1..])
  }

  /** `PieceTree::get_text`. */
  function GetText(t: Tree): (r: string)
    requires Valid(t)
    ensures |r| == TotalLength(t.pieces)
  {
    Concat(t.original, t.added, t.pieces)
  }

  /** `PieceTree::new`: one piece covering the whole original buffer. */
  function New(content: string): (t: Tree)
    ensures Valid(t)
    ensures GetText(t) == content
    ensures t.original == content && t.added == []
  {
    Tree(content, [], [Piece(Original, 0, |content|)])
  }

  /** Cutting a piece at an interior point keeps the bytes it spells. */
  lemma SplitKeepsText(original: string, added: string, p: Piece, k: nat)
    requires Fits(original, added, p) && 0 < k < p.length
    ensures Fits(original, added, Piece(p.source, p.start, k))
    ensures Fits(original, added, Piece(p.source, p.start + k, p.length - k))
    ensures Slice(original, added, Piece(p.source, p.start, k))
            + Slice(original, added, Piece(p.source, p.start + k, p.length - k))
            == Slice(original, added, p)
  {
    var b := Buffer(original, added, p.source);
    assert b[p.start..p.start + k] + b[p.start + k..p.start + p.length] == b[p.start..p.start + p.length];
  }

  /** Appending to the added buffer does not change what existing pieces spell. */
  lemma {:induction false} ConcatGrowAdded(original: string, added: string, extra: string, ps: seq<Piece>)
    requires AllFit(original, added, ps)
    ensures AllFit(original, added + extra, ps)
    ensures Concat(original, added + extra, ps) == Concat(original, added, ps)
  {
    assert AllFit(original, added + extra, ps) by {
      forall i | 0 <= i < |ps| ensures Fits(original, added + extra, ps[i]) {
        assert Fits(original, added, ps[i]);
      }
    }
    if |ps| > 0 {
      var p := ps[0];
      assert Fits(original, added, p);
      var b := Buffer(original, added, p.source);
      var b' := Buffer(original, added + extra, p.source);
      assert b'[p.start..p.start + p.length] == b[p.start..p.start + p.length];
      assert AllFit(original, added, ps[1..]) by {
        forall i | 0 <= i < |ps[1..]| ensures Fits(original, added, ps[1..][i]) {
          assert ps[1..][i] == ps[i + 1];
        }
      }
      ConcatGrowAdded(original, added, extra, ps[1..]);
    }
  }

  lemma AllFitTail(original: string, added: string, ps: seq<Piece>)
    requires AllFit(original, added, ps) && |ps| > 0
    ensures Fits(original, added, ps[0]) && AllFit(original, added, ps[1..])
  {
    forall i | 0 <= i < |ps[1..]| ensures Fits(original, added, ps[1..][i]) {
      assert ps[1..][i] == ps[i + 1];
    }
  }

  lemma AllFitCons(original: string, added: string, p: Piece, ps: seq<Piece>)
    requires Fits(original, added, p) && AllFit(original, added, ps)
    ensures AllFit(original, added, [p] + ps)
  {
    forall i | 0 <= i < |[p] + ps| ensures Fits(original, added, ([p] + ps)[i]) {
      if i > 0 { assert ([p] + ps)[i] == ps[i - 1]; }
    }
  }

  lemma ConcatCons(original: string, added: string, p: Piece, ps: seq<Piece>)
    requires Fits(original, added, p) && AllFit(original, added, ps)
    ensures AllFit(original, added, [p] + ps)
    ensures Concat(original, added, [p] + ps) == Slice(original, added, p) + Concat(original, added, ps)
  {
    AllFitCons(original, added, p, ps);
    assert ([p] + ps)[1..] == ps;
  }

  /** `text` with `ins` put in at `offset`, or appended when `offset` is past the end. */
  function Splice(text: string, offset: nat, ins: string): string
  {
    if offset <= |text| then text[..offset] + ins + text[offset..] else text + ins
  }

  /**
   * The search loop of `PieceTree::insert` for an offset > 0: walk the
   * pieces keeping the running offset, and at the first piece whose end
   * reaches `offset` put `np` before it, after it, or into the middle of it
   * (splitting it in two); when no piece reaches `offset`, push `np` at the
   * end.  `offset` here is relative to the start of `ps`.
   */
  function Place(original: string, added: string, ps: seq<Piece>, offset: nat, np: Piece): (r: seq<Piece>)
    requires AllFit(original, added, ps) && Fits(original, added, np)
    ensures AllFit(original, added, r)
    ensures |r| == |ps| + 1 || |r| == |ps| + 2
  {
    if |ps| == 0 then
      AllFitCons(original, added, np, []);
      [np]
    else
      var p := ps[0];
      AllFitTail(original, added, ps);
      if p.length >= offset then
        if offset == 0 then
          AllFitCons(original, added, np, ps);
          [np] + ps
        else if offset == p.length then
          AllFitCons(original, added, np, ps[1..]);
          AllFitCons(original, added, p, [np] + ps[1..]);
          assert [p] + ([np] + ps[1..]) == [p, np] + ps[1..];
          [p, np] + ps[1..]
        else
          var left := Piece(p.source, p.start, offset);
          var right := Piece(p.source, p.start + offset, p.length - offset);
          AllFitCons(original, added, right, ps[1..]);
          AllFitCons(original, added, np, [right] + ps[1..]);
          AllFitCons(original, added, left, [np] + ([right] + ps[1..]));
          assert [left] + ([np] + ([right] + ps[1..])) == [left, np, right] + ps[1..];
          [left, np, right] + ps[1..]
      else
        var r' := Place(original, added, ps[1..], offset - p.length, np);
        AllFitCons(original, added, p, r');
        [p] + r'
  }

  /** `Place` splices the new piece's bytes into the text at `offset`. */
  lemma {:induction false} PlaceText(original: string, added: string, ps: seq<Piece>, offset: nat, np: Piece)
    requires AllFit(original, added, ps) && Fits(original, added, np)
    ensures Concat(original, added, Place(original, added, ps, offset, np))
            == Splice(Concat(original, added, ps), offset, Slice(original, added, np))
  {
    var r := Place(original, added, ps, offset, np);
    if |ps| == 0 {
      assert r == [np];
      ConcatCons(original, added, np, []);
    } else {
      var p := ps[0];
      AllFitTail(original, added, ps);
      var rest := ps[1..];
      ConcatCons(original, added, p, rest);
      assert [p] + rest == ps;
      if p.length >= offset {
        if offset == 0 {
          assert r == [np] + ps;
          ConcatCons(original, added, np, ps);
        } else if offset == p.length {
          assert r == [p, np] + rest;
          PlaceAfterText(original, added, p, rest, np);
        } else {
          assert r == [Piece(p.source, p.start, offset), np, Piece(p.source, p.start + offset, p.length - offset)] + rest;
          PlaceSplitText(original, added, p, rest, offset, np);
        }
      } else {
        var r' := Place(original, added, rest, offset - p.length, np);
        assert r == [p] + r';
        PlaceText(original, added, rest, offset - p.length, np);
        PlaceSkipText(original, added, p, rest, offset, r', Slice(original, added, np));
      }
    }
  }

  lemma PlaceSkipText(original: string, added: string, p: Piece, rest: seq<Piece>, offset: nat,
                      r': seq<Piece>, ins: string)
    requires Fits(original, added, p) && AllFit(original, added, rest) && AllFit(original, added, r')
    requires p.length < offset
    requires Concat(original, added, r') == Splice(Concat(original, added, rest), offset - p.length, ins)
    ensures AllFit(original, added, [p] + r')
    ensures Concat(original, added, [p] + r')
            == Splice(Slice(original, added, p) + Concat(original, added, rest), offset, ins)
  {
    ConcatCons(original, added, p, r');
    SpliceShift(Slice(original, added, p), Concat(original, added, rest), offset, ins);
  }

  /** Splicing past a prefix is splicing into what follows it. */
  lemma SpliceShift(head: string, tailText: string, offset: nat, ins: string)
    requires |head| < offset
    ensures head + Splice(tailText, offset - |head|, ins) == Splice(head + tailText, offset, ins)
  {
    var text := head + tailText;
    var k := offset - |head|;
    if offset <= |text| {
      assert text[..offset] == head + tailText[..k];
      assert text[offset..] == tailText[k..];
      StringAssoc3(head, tailText[..k], ins, tailText[k..]);
    } else {
      StringAssoc(head, tailText, ins);
    }
  }

  lemma StringAssoc(a: string, b: string, c: string)
    ensures a + (b + c) == a + b + c
  {
  }

  lemma StringAssoc3(a: string, b: string, c: string, d: string)
    ensures a + (b + c + d) == a + b + c + d
  {
  }

  lemma PlaceAfterText(original: string, added: string, p: Piece, rest: seq<Piece>, np: Piece)
    requires Fits(original, added, p) && AllFit(original, added, rest) && Fits(original, added, np)
    ensures AllFit(original, added, [p, np] + rest)
    ensures Concat(original, added, [p, np] + rest)
            == Slice(original, added, p) + Slice(original, added, np) + Concat(original, added, rest)
  {
    ConcatCons(original, added, np, rest);
    ConcatCons(original, added, p, [np] + rest);
    assert [p] + ([np] + rest) == [p, np] + rest;
  }

  lemma PlaceSplitText(original: string, added: string, p: Piece, rest: seq<Piece>, offset: nat, np: Piece)
    requires Fits(original, added, p) && AllFit(original, added, rest) && Fits(original, added, np)
    requires 0 < offset < p.length
    ensures var left := Piece(p.source, p.start, offset);
            var right := Piece(p.source, p.start + offset, p.length - offset);
            var text := Slice(original, added, p) + Concat(original, added, rest);
            AllFit(original, added, [left, np, right] + rest) &&
            Concat(original, added, [left, np, right] + rest)
              == text[..offset] + Slice(original, added, np) + text[offset..]
  {
    var left := Piece(p.source, p.start, offset);
    var right := Piece(p.source, p.start + offset, p.length - offset);
    SplitKeepsText(original, added, p, offset);
    ConcatCons(original, added, right, rest);
    ConcatCons(original, added, np, [right] + rest);
    ConcatCons(original, added, left, [np] + ([right] + rest));
    assert [left] + ([np] + ([right] + rest)) == [left, np, right] + rest;
    SplitTextParts(Slice(original, added, left), Slice(original, added, right),
                   Slice(original, added, np), Concat(original, added, rest), offset);
  }

  /** Cutting `l + rt + c` at `|l|` and putting `m` in the gap. */
  lemma SplitTextParts(l: string, rt: string, m: string, c: string, offset: nat)
    requires |l| == offset
    ensures l + (m + (rt + c)) == (l + rt + c)[..offset] + m + (l + rt + c)[offset..]
  {
    var text := l + rt + c;
    assert text[..offset] == l;
    assert text[offset..] == rt + c;
    StringAssoc(l, m, rt + c);
  }

  /**
   * `PieceTree::insert`: append `text` to the added buffer and splice a
   * piece for it into the piece sequence at byte `offset`.  An offset
   * past the end appends.
   */
  function Insert(t: Tree, offset: nat, text: string): (r: Tree)
    requires Valid(t)
    ensures Valid(r)
    ensures r.original == t.original
    ensures r.added == t.added + text
    ensures GetText(r) == Splice(GetText(t), offset, text)
  {
    var added := t.added + text;
    var np := Piece(Add, |t.added|, |text|);
    ConcatGrowAdded(t.original, t.added, text, t.pieces);
    assert Slice(t.original, added, np) == text;
    if offset == 0 then
      ConcatCons(t.original, added, np, t.pieces);
      Tree(t.original, added, [np] + t.pieces)
    else
      PlaceText(t.original, added, t.pieces, offset, np);
      Tree(t.original, added, Place(t.original, added, t.pieces, offset, np))
  }

  /** The insertion of the Rust code's first example. */
  lemma InsertExampleMiddle()
    ensures GetText(Insert(New("Hello World"), 6, "Beautiful ")) == "Hello Beautiful World"
  {
    var t0 := New("Hello World");
    assert Splice("Hello World", 6, "Beautiful ") == "Hello Beautiful World";
  }

  /** The three insertions of the Rust code's second example. */
  lemma InsertExampleFrontAndEnd()
    ensures GetText(Insert(Insert(Insert(New(""), 0, "Rust"), 0, "I love "), 11, "!")) == "I love Rust!"
  {
    var a := Insert(New(""), 0, "Rust");
    InsertIntoEmpty();
    var b := Insert(a, 0, "I love ");
    InsertAtFront(a);
    InsertAtEnd(b);
  }

  lemma InsertIntoEmpty()
    ensures GetText(Insert(New(""), 0, "Rust")) == "Rust"
  {
    assert Splice("", 0, "Rust") == "Rust";
  }

  lemma InsertAtFront(a: Tree)
    requires Valid(a) && GetText(a) == "Rust"
    ensures GetText(Insert(a, 0, "I love ")) == "I love Rust"
  {
    assert Splice("Rust", 0, "I love ") == "I love Rust";
  }

  lemma InsertAtEnd(b: Tree)
    requires Valid(b) && GetText(b) == "I love Rust"
    ensures GetText(Insert(b, 11, "!")) == "I love Rust!"
  {
    assert Splice("I love Rust", 11, "!") == "I love Rust!";
  }
}
