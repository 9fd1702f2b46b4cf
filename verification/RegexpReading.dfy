/** Parsing a spelled pattern takes its pieces one after the other. */
module RegexpReading {
  import opened RegexpBits
  import opened RegexpTree
  import opened RegexpCode
  import opened RegexpSyntax
  import opened RegexpGrammar
  import opened RegexpSpelling

  // ---- Pieces ----

  /** A piece may come next. */
  predicate Goes(p: Partial, piece: Piece) {
    Extend(p, piece).Good? && PieceOk(piece, p.items == [])
  }

  /** Pieces that may follow a partial pattern and complete it; a $ only at the end. */
  predicate Completes(pieces: seq<Piece>, p: Partial)
    decreases |pieces|
  {
    if pieces == [] then p.stack == []
    else
      && Goes(p, pieces[0]) && (pieces[0].Dollar? ==> pieces[1..] == [])
      && Completes(pieces[1..], Extend(p, pieces[0]).value)
  }

  function Build(pieces: seq<Piece>, p: Partial): Partial
    requires Completes(pieces, p)
    decreases |pieces|
  {
    if pieces == [] then p else Build(pieces[1..], Extend(p, pieces[0]).value)
  }

  type Reader = (nat, Partial) -> Built<seq<Instr<Class>>>

  /** A way of reading text that takes a spelled piece at a time. */
  ghost predicate TakesEach(src: text, f: Piece -> text, g: Reader) {
    forall i: nat, p, piece ::
      Goes(p, piece) && Reads(src, i, f(piece)) && (piece.Dollar? ==> i + |f(piece)| == |src|) ==>
        g(i, p) == g(i + |f(piece)|, Extend(p, piece).value)
  }

  /** At the end of the text it gives the items built. */
  ghost predicate GivesItems(src: text, g: Reader) {
    forall p: Partial :: p.stack == [] ==> g(|src|, p) == Good(p.items)
  }

  lemma {:induction false} JoinReads(src: text, i: nat, f: Piece -> text, pieces: seq<Piece>)
    requires pieces != [] && Reads(src, i, Join(f, pieces))
    ensures Reads(src, i, f(pieces[0])) && Reads(src, i + |f(pieces[0])|, Join(f, pieces[1..]))
    ensures |f(pieces[0])| + |Join(f, pieces[1..])| == |Join(f, pieces)|
  {
    ReadsSplit(src, i, f(pieces[0]), Join(f, pieces[1..]));
  }

  /** Reading text piece by piece builds all its items. */
  lemma {:induction false} TakesAll(src: text, f: Piece -> text, g: Reader, i: nat, p: Partial, pieces: seq<Piece>)
    requires TakesEach(src, f, g) && GivesItems(src, g) && Completes(pieces, p)
    requires Reads(src, i, Join(f, pieces)) && i + |Join(f, pieces)| == |src|
    ensures g(i, p) == Good(Build(pieces, p).items)
    decreases |pieces|
  {
    if pieces != [] {
      JoinReads(src, i, f, pieces);
      TakesAll(src, f, g, i + |f(pieces[0])|, Extend(p, pieces[0]).value, pieces[1..]);
    }
  }

  // ---- The parser reads so ----

  lemma {:induction false} ParseStep(src: text, i: nat, sed: bool, p: Partial, piece: Piece, next: nat)
    requires Lexes(src, i, sed, p.items == [], piece, next) && !piece.Stop? && Extend(p, piece).Good?
    ensures ParseFrom(src, i, 0, sed, p) == ParseFrom(src, next, 0, sed, Extend(p, piece).value)
  {}

  lemma {:induction false} ParseEnd(src: text, sed: bool, p: Partial)
    requires p.stack == []
    ensures ParseFrom(src, |src|, 0, sed, p) == Good(p.items)
  {}

  function Parser(src: text, sed: bool): Reader {
    (j: nat, q: Partial) => ParseFrom(src, j, 0, sed, q)
  }

  lemma {:induction false} ParserTakes(src: text, sed: bool)
    ensures TakesEach(src, SpellPiece, Parser(src, sed))
  {
    var f, g := SpellPiece, Parser(src, sed);
    forall j: nat, q, piece |
      Goes(q, piece) && Reads(src, j, f(piece)) && (piece.Dollar? ==> j + |f(piece)| == |src|)
      ensures g(j, q) == g(j + |f(piece)|, Extend(q, piece).value)
    {
      ParserStep(src, sed, j, q, piece);
    }
  }

  lemma {:induction false} ParserStep(src: text, sed: bool, j: nat, q: Partial, piece: Piece)
    requires Goes(q, piece) && Reads(src, j, SpellPiece(piece))
    requires piece.Dollar? ==> j + |SpellPiece(piece)| == |src|
    ensures Parser(src, sed)(j, q) == Parser(src, sed)(j + |SpellPiece(piece)|, Extend(q, piece).value)
  {
    var next := j + |SpellPiece(piece)|;
    ReadPiece(src, j, sed, q.items == [], piece);
    ParserOne(src, sed, j, q, piece, next);
  }

  lemma {:induction false} ParserOne(src: text, sed: bool, j: nat, q: Partial, piece: Piece, next: nat)
    requires Lexes(src, j, sed, q.items == [], piece, next) && !piece.Stop? && Extend(q, piece).Good?
    ensures Parser(src, sed)(j, q) == Parser(src, sed)(next, Extend(q, piece).value)
  {
    ParseStep(src, j, sed, q, piece, next);
  }

  lemma {:induction false} ParserGives(src: text, sed: bool)
    ensures GivesItems(src, Parser(src, sed))
  {
    forall q: Partial | q.stack == [] ensures Parser(src, sed)(|src|, q) == Good(q.items) { ParseEnd(src, sed, q); }
  }

  /** Text that spells pieces which complete a partial pattern parses to what they build. */
  lemma {:induction false} ParseSpelled(src: text, i: nat, sed: bool, p: Partial, pieces: seq<Piece>)
    requires Completes(pieces, p)
    requires Reads(src, i, Join(SpellPiece, pieces)) && i + |Join(SpellPiece, pieces)| == |src|
    ensures ParseFrom(src, i, 0, sed, p) == Good(Build(pieces, p).items)
  {
    ParserTakes(src, sed);
    ParserGives(src, sed);
    TakesAll(src, SpellPiece, Parser(src, sed), i, p, pieces);
    assert Parser(src, sed)(i, p) == ParseFrom(src, i, 0, sed, p);
  }

  // ---- Pieces build items ----

  /** The partial pattern with one item more. */
  function AfterItem(p: Partial, ins: Instr<Class>): Partial {
    match ins
    case Bra(k) => Add(p, ins).(stack := [p.nbra] + p.stack, nbra := p.nbra + 1)
    case Ket(k) => if p.stack == [] then p else Add(p, ins).(stack := p.stack[1..], closed := p.closed + 1)
    case _ => Add(p, ins)
  }

  lemma {:induction false} TwoPieces(p: Partial, a: Piece, b: Piece, rest: seq<Piece>)
    requires Goes(p, a) && !a.Dollar? && Goes(Extend(p, a).value, b) && !b.Dollar?
    requires Completes(rest, Extend(Extend(p, a).value, b).value)
    ensures Completes([a, b] + rest, p)
    ensures Build([a, b] + rest, p) == Build(rest, Extend(Extend(p, a).value, b).value)
  {
    assert ([a, b] + rest)[1..] == [b] + rest && ([b] + rest)[1..] == rest;
  }

  lemma {:induction false} OnePiece(p: Partial, a: Piece, rest: seq<Piece>)
    requires Goes(p, a) && (a.Dollar? ==> rest == []) && Completes(rest, Extend(p, a).value)
    ensures Completes([a] + rest, p)
    ensures Build([a] + rest, p) == Build(rest, Extend(p, a).value)
  {
    assert ([a] + rest)[1..] == rest;
  }

  /** An element and the repetition that follows it add one item. */
  lemma {:induction false} RepeatGoes(p: Partial, cls: Class, rep: Rep)
    requires SingleOk(cls, rep) && !rep.Once?
    ensures Goes(p, Elem(cls)) && Goes(Extend(p, Elem(cls)).value, RepPieces(rep)[0])
    ensures Extend(Extend(p, Elem(cls)).value, RepPieces(rep)[0]) == Good(Add(p, Single(cls, rep)))
  {
    var q := Add(p, Single(cls, Once));
    assert q.items[..|q.items| - 1] == p.items;
  }

  lemma {:induction false} BackStarGoes(p: Partial, k: nat)
    requires k < p.closed && k < NBRA
    ensures Goes(p, Digit(k)) && Goes(Extend(p, Digit(k)).value, Asterisk)
    ensures Extend(Extend(p, Digit(k)).value, Asterisk) == Good(Add(p, BackStar(k)))
  {
    var q := Add(p, Back(k));
    assert q.items[..|q.items| - 1] == p.items;
  }

  /** An item of one piece is added by it. */
  lemma {:induction false} ItemGoes(p: Partial, items: seq<Instr<Class>>)
    requires items != [] && Spellable(items, p.stack, p.nbra, p.closed)
    requires !items[0].BackStar? && !items[0].Patched? && !(items[0].Single? && !items[0].rep.Once?)
    ensures |Pieces(items[0])| == 1 && Goes(p, Pieces(items[0])[0])
    ensures Extend(p, Pieces(items[0])[0]) == Good(AfterItem(p, items[0]))
  {}

  /** The pieces of an item build the item. */
  lemma {:induction false} PiecesBuild(p: Partial, items: seq<Instr<Class>>, rest: seq<Piece>)
    requires items != [] && Spellable(items, p.stack, p.nbra, p.closed)
    requires Completes(rest, AfterItem(p, items[0])) && (items[0].Dol? ==> rest == [])
    ensures Completes(Pieces(items[0]) + rest, p)
    ensures Build(Pieces(items[0]) + rest, p) == Build(rest, AfterItem(p, items[0]))
  {
    var ins := items[0];
    var pieces := Pieces(ins);
    if ins.BackStar? {
      BackStarGoes(p, ins.k);
      TwoPieces(p, pieces[0], pieces[1], rest);
      assert pieces == [pieces[0], pieces[1]];
    } else if ins.Single? && !ins.rep.Once? {
      RepeatGoes(p, ins.cls, ins.rep);
      TwoPieces(p, pieces[0], pieces[1], rest);
      assert pieces == [pieces[0], pieces[1]];
    } else {
      ItemGoes(p, items);
      OnePiece(p, pieces[0], rest);
      assert pieces == [pieces[0]];
    }
  }

  lemma {:induction false} SpellableTail(items: seq<Instr<Class>>, p: Partial)
    requires items != [] && Spellable(items, p.stack, p.nbra, p.closed)
    ensures var q := AfterItem(p, items[0]);
      Spellable(items[1..], q.stack, q.nbra, q.closed) && q.items + items[1..] == p.items + items
    ensures items[0].Dol? ==> items[1..] == []
  {}

  /** The pieces of spellable items complete the pattern and build the items. */
  lemma {:induction false} PiecesBuildAll(items: seq<Instr<Class>>, p: Partial)
    requires Spellable(items, p.stack, p.nbra, p.closed)
    ensures Completes(PiecesOf(items), p) && Build(PiecesOf(items), p).items == p.items + items
    decreases |items|
  {
    if items == [] {
      assert p.items + items == p.items;
    } else {
      SpellableTail(items, p);
      PiecesBuildAll(items[1..], AfterItem(p, items[0]));
      PiecesBuild(p, items, PiecesOf(items[1..]));
    }
  }
}
