/** What parsing returns, if advance can execute it at all, can be spelled. */
module RegexpSpellable {
  import opened RegexpBits
  import opened RegexpTree
  import opened RegexpCode
  import opened RegexpSyntax
  import opened RegexpGrammar
  import opened RegexpSpelling

  // ---- Elements ----

  lemma {:induction false} SpansLexed(src: text, i: nat, last: letter)
    requires LexSpans(src, i, last).Got?
    requires i <= |src| && Get(src, i) != Ch(']')
    ensures var spans := LexSpans(src, i, last).value; spans != [] && SpansOk(spans, last)
    decreases |src| + 1 - i, 0
  {
    var c := Get(src, i);
    if c == Ch('-') {
      var d := Get(src, i + 1);
      if d == Ch(']') {
        assert LexSpans(src, i, last).value == [Span(c, c)];
        assert [Span(c, c)][1..] == [];
      } else {
        MoreLexed(src, i + 2, Span(last, d), last);
      }
    } else {
      MoreLexed(src, i + 1, Span(c, c), last);
    }
  }

  lemma {:induction false} MoreLexed(src: text, i: nat, span: Span, last: letter)
    requires 0 < i <= |src| && LexMore(src, i, span).Got?
    requires span.hi != Ch(']') && (span.lo == last || (IsPlain(span, false)))
    ensures var spans := LexMore(src, i, span).value; spans != [] && SpansOk(spans, last)
    decreases |src| + 1 - i, 1
  {
    var spans := LexMore(src, i, span).value;
    if Get(src, i) == Ch(']') {
      assert spans == [span] && spans[1..] == [];
    } else {
      SpansLexed(src, i, span.hi);
      assert spans[1..] == LexSpans(src, i, span.hi).value;
    }
  }

  lemma {:induction false} BracketLexed(src: text, i: nat)
    requires i <= |src| && LexBracket(src, i).Got?
    ensures var cls := LexBracket(src, i).value; BracketOk(cls.neg, cls.spans)
  {
    var neg := Get(src, i) == Ch('^');
    FirstLexed(src, if neg then i + 1 else i, 0);
  }

  lemma {:induction false} FirstLexed(src: text, j: nat, none: byte)
    requires none == 0 && j <= |src| && LexSpans(src, j, none).Got?
    ensures var c, spans := Get(src, j), LexSpans(src, j, none).value;
      c != 0 && c != NL && spans != [] && spans[0] == Span(c, c) && SpansOk(spans[1..], c)
  {
    var c, spans := Get(src, j), LexSpans(src, j, none).value;
    assert LexSpans(src, j, none) == LexMore(src, j + 1, Span(c, c));
    if Get(src, j + 1) == Ch(']') {
      assert spans == [Span(c, c)] && spans[1..] == [];
    } else {
      SpansLexed(src, j + 1, c);
      assert spans[1..] == LexSpans(src, j + 1, c).value;
    }
  }

  /** A piece that is read is one that can be spelled. */
  lemma {:induction false} PieceLexed(src: text, i: nat, eof: byte, sed: bool, first: bool)
    requires i <= |src| && LexPiece(src, i, eof, sed, first).Got?
    ensures var piece := LexPiece(src, i, eof, sed, first).value; piece.Stop? || PieceOk(piece, first)
  {
    if Get(src, i) == Ch('[') && eof != Ch('[') { BracketLexed(src, i + 1); }
  }

  // ---- Items ----

  function Front(p: Partial): seq<Instr<Class>>
    requires p.items != []
  {
    p.items[..|p.items| - 1]
  }

  /** What a star or an interval may make of an item without patching it. */
  predicate MayBecome(ins: Instr<Class>, was: Instr<Class>) {
    || ins == was
    || (ins.Single? && was.Single? && SingleOk(ins.cls, ins.rep))
    || (ins.BackStar? && was.Back? && ins.k == was.k)
  }

  /** Whatever can follow the items can be spelled after them, even if the last one changes. */
  ghost predicate Leads(p: Partial) {
    p.items != [] ==>
      && (Last(p).Single? ==> SingleOk(Last(p).cls, Last(p).rep))
      && forall ins, rest :: MayBecome(ins, Last(p)) && Spellable(rest, p.stack, p.nbra, p.closed) ==>
           Spellable(Front(p) + ([ins] + rest), [], 0, 0)
  }

  lemma {:induction false} LeadsTo(p: Partial, rest: seq<Instr<Class>>)
    requires Leads(p) && Spellable(rest, p.stack, p.nbra, p.closed) && (p.items == [] ==> p == Start)
    ensures Spellable(p.items + rest, [], 0, 0)
  {
    if p.items == [] {
      assert p.items + rest == rest;
    } else {
      assert Spellable(Front(p) + ([Last(p)] + rest), [], 0, 0);
      assert p.items + rest == Front(p) + ([Last(p)] + rest);
    }
  }

  /** One item more. */
  lemma {:induction false} LeadsAdd(p: Partial, ins: Instr<Class>, q: Partial)
    requires Leads(p) && (p.items == [] ==> p == Start) && q.items == p.items + [ins]
    requires ins.Single? ==> SingleOk(ins.cls, ins.rep)
    requires forall other, rest :: MayBecome(other, ins) && Spellable(rest, q.stack, q.nbra, q.closed) ==>
      Spellable([other] + rest, p.stack, p.nbra, p.closed)
    ensures Leads(q)
  {
    assert Front(q) == p.items;
    forall other, rest | MayBecome(other, Last(q)) && Spellable(rest, q.stack, q.nbra, q.closed)
      ensures Spellable(Front(q) + ([other] + rest), [], 0, 0)
    {
      LeadsTo(p, [other] + rest);
    }
  }

  /** The last item changed. */
  lemma {:induction false} LeadsSet(p: Partial, ins: Instr<Class>)
    requires p.items != [] && Leads(p) && MayBecome(ins, Last(p))
    ensures Leads(SetLast(p, ins))
  {
    var q := SetLast(p, ins);
    assert Front(q) == Front(p);
    forall other, rest | MayBecome(other, Last(q)) && Spellable(rest, q.stack, q.nbra, q.closed)
      ensures Spellable(Front(q) + ([other] + rest), [], 0, 0)
    {
      assert MayBecome(other, Last(p));
    }
  }

  /** An item that can come next, whatever it may yet become. */
  lemma {:induction false} ItemNext(p: Partial, ins: Instr<Class>, q: Partial, other: Instr<Class>,
                                    rest: seq<Instr<Class>>)
    requires MayBecome(other, ins) && Spellable(rest, q.stack, q.nbra, q.closed)
    requires match ins
      case Single(cls, rep) => SingleOk(cls, rep) && q.stack == p.stack && q.nbra == p.nbra && q.closed == p.closed
      case Bra(k) => k == p.nbra < NBRA && q.stack == [p.nbra] + p.stack && q.nbra == p.nbra + 1 && q.closed == p.closed
      case Ket(k) =>
        p.stack != [] && k == p.stack[0] && q.stack == p.stack[1..] && q.nbra == p.nbra && q.closed == p.closed + 1
      case Back(k) => k < p.closed && k < NBRA && q.stack == p.stack && q.nbra == p.nbra && q.closed == p.closed
      case _ => false
    ensures Spellable([other] + rest, p.stack, p.nbra, p.closed)
  {
    assert ([other] + rest)[1..] == rest;
  }

  lemma {:induction false} LeadsItem(p: Partial, ins: Instr<Class>, q: Partial)
    requires Leads(p) && (p.items == [] ==> p == Start) && q.items == p.items + [ins]
    requires match ins
      case Single(cls, rep) => SingleOk(cls, rep) && q.stack == p.stack && q.nbra == p.nbra && q.closed == p.closed
      case Bra(k) => k == p.nbra < NBRA && q.stack == [p.nbra] + p.stack && q.nbra == p.nbra + 1 && q.closed == p.closed
      case Ket(k) =>
        p.stack != [] && k == p.stack[0] && q.stack == p.stack[1..] && q.nbra == p.nbra && q.closed == p.closed + 1
      case Back(k) => k < p.closed && k < NBRA && q.stack == p.stack && q.nbra == p.nbra && q.closed == p.closed
      case _ => false
    ensures Leads(q)
  {
    forall other, rest | MayBecome(other, ins) && Spellable(rest, q.stack, q.nbra, q.closed)
      ensures Spellable([other] + rest, p.stack, p.nbra, p.closed)
    {
      ItemNext(p, ins, q, other, rest);
    }
    LeadsAdd(p, ins, q);
  }

  /** A patch never goes away. */
  lemma {:induction false} PatchStays(p: Partial, piece: Piece)
    requires Extend(p, piece).Good? && Unpatched(Extend(p, piece).value.items)
    ensures Unpatched(p.items)
  {
    var q := Extend(p, piece).value;
    if |q.items| > |p.items| {
      assert forall i :: 0 <= i < |p.items| ==> q.items[i] == p.items[i];
    } else if p.items != [] {
      var n := |p.items| - 1;
      assert forall i :: 0 <= i < n ==> q.items[i] == p.items[i];
      assert !q.items[n].Patched?;
    }
  }

  /** Every piece but a $ leads on, if it patches nothing. */
  lemma {:induction false} ExtendLeads(p: Partial, piece: Piece)
    requires Leads(p) && (p.items == [] ==> p == Start) && PieceOk(piece, p.items == []) && !piece.Dollar?
    requires Extend(p, piece).Good? && Unpatched(Extend(p, piece).value.items)
    ensures Leads(Extend(p, piece).value) && Extend(p, piece).value.items != []
  {
    var q := Extend(p, piece).value;
    match piece
    case Elem(cls) => LeadsItem(p, Single(cls, Once), q);
    case OpenGroup => LeadsItem(p, Bra(p.nbra), q);
    case CloseGroup => LeadsItem(p, Ket(p.stack[0]), q);
    case Digit(k) => LeadsItem(p, Back(k), q);
    case Asterisk =>
      if p.items == [] || Last(p).Bra? || Last(p).Ket? {
        LeadsItem(p, Single(Lit(Ch('*')), Once), q);
      } else {
        assert !q.items[|q.items| - 1].Patched?;
        LeadsSet(p, Starred(Last(p)));
      }
    case Interval(lo, hi) =>
      assert !q.items[|q.items| - 1].Patched?;
      LeadsSet(p, Ranged(Last(p), lo, hi));
  }

  /** A $ is read only where the pattern then ends. */
  lemma {:induction false} DollarEnds(src: text, i: nat, eof: byte, sed: bool, p: Partial)
    requires i <= |src| && LexPiece(src, i, eof, sed, p.items == []) == Got(Dollar, i + 1)
    requires ParseFrom(src, i, eof, sed, p).Good?
    ensures p.stack == [] && ParseFrom(src, i, eof, sed, p).value == p.items + [Dol]
  {
    var q := Add(p, Dol);
    assert ParseFrom(src, i, eof, sed, p) == ParseFrom(src, i + 1, eof, sed, q);
    assert Get(src, i + 1) == eof || Get(src, i + 1) == NL;
  }

  lemma {:induction false} DollarAt(src: text, i: nat, eof: byte, sed: bool, first: bool)
    requires i <= |src| && LexPiece(src, i, eof, sed, first).Got? && LexPiece(src, i, eof, sed, first).value.Dollar?
    ensures LexPiece(src, i, eof, sed, first).next == i + 1
  {}

  lemma {:induction false} SpellableFrom(src: text, i: nat, eof: byte, sed: bool, p: Partial)
    requires Leads(p) && (p.items == [] ==> p == Start)
    requires ParseFrom(src, i, eof, sed, p).Good? && Unpatched(ParseFrom(src, i, eof, sed, p).value)
    ensures Spellable(ParseFrom(src, i, eof, sed, p).value, [], 0, 0)
    decreases |src| + 1 - i
  {
    var lexed := LexPiece(src, i, eof, sed, p.items == []);
    PieceLexed(src, i, eof, sed, p.items == []);
    if lexed.value.Stop? {
      LeadsTo(p, []);
      assert p.items + [] == p.items;
    } else if lexed.value.Dollar? {
      DollarAt(src, i, eof, sed, p.items == []);
      DollarEnds(src, i, eof, sed, p);
      var end: seq<Instr<Class>> := [Dol];
      assert end[1..] == [];
      LeadsTo(p, end);
    } else {
      var q := Extend(p, lexed.value).value;
      UnpatchedBefore(src, lexed.next, eof, sed, q);
      ExtendLeads(p, lexed.value);
      SpellableFrom(src, lexed.next, eof, sed, q);
    }
  }

  lemma {:induction false} UnpatchedBefore(src: text, i: nat, eof: byte, sed: bool, p: Partial)
    requires ParseFrom(src, i, eof, sed, p).Good? && Unpatched(ParseFrom(src, i, eof, sed, p).value)
    ensures Unpatched(p.items)
    decreases |src| + 1 - i
  {
    var lexed := LexPiece(src, i, eof, sed, p.items == []);
    if !lexed.value.Stop? {
      UnpatchedBefore(src, lexed.next, eof, sed, Extend(p, lexed.value).value);
      PatchStays(p, lexed.value);
    }
  }

  /** The items of an accepted text can be spelled exactly if none is patched. */
  lemma {:induction false} SpellableExactly(src: text, eof: byte, sed: bool)
    requires Parse(src, eof, sed).Good?
    ensures Spellable(Parse(src, eof, sed).value, [], 0, 0) <==> Unpatched(Parse(src, eof, sed).value)
  {
    var items := Parse(src, eof, sed).value;
    if Unpatched(items) {
      SpellableFrom(src, if IsAnchored(src) then 1 else 0, eof, sed, Start);
    }
    if Spellable(items, [], 0, 0) { SpellableUnpatched(items, [], 0, 0); }
  }

  lemma {:induction false} SpellableUnpatched(items: seq<Instr<Class>>, stack: seq<nat>, nbra: nat, closed: nat)
    requires Spellable(items, stack, nbra, closed)
    ensures Unpatched(items)
    decreases |items|
  {
    if items != [] {
      match items[0]
      case Bra(k) => SpellableUnpatched(items[1..], [nbra] + stack, nbra + 1, closed);
      case Ket(k) => SpellableUnpatched(items[1..], stack[1..], nbra, closed + 1);
      case Dol =>
      case Patched(_, _) =>
      case _ => SpellableUnpatched(items[1..], stack, nbra, closed);
    }
  }
}
