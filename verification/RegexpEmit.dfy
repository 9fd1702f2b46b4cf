/** The bytes of a growing sequence of items, and in-place edits of them. */
module RegexpEmit {
  import opened RegexpBits
  import opened RegexpTree
  import opened RegexpCode
  import opened RegexpMeaning
  import opened RegexpSyntax
  import opened RegexpGrammar
  import opened Options

  lemma {:induction false} LowerOk(ins: Instr<Class>)
    requires ItemOk(ins)
    ensures InstrWf(LowerInstr(ins))
    decreases ins
  {
    if ins.Single? {
      LowerExact(ins.cls, 0);
    } else if ins.Patched? {
      LowerOk(ins.inner);
    }
  }

  function ItemBytes(ins: Instr<Class>): seq<byte>
    requires ItemOk(ins)
  {
    LowerOk(ins);
    Bytes(LowerInstr(ins))
  }

  function Emit(items: seq<Instr<Class>>): seq<byte>
    requires ItemsOk(items)
  {
    if items == [] then []
    else Emit(items[..|items| - 1]) + ItemBytes(items[|items| - 1])
  }

  lemma {:induction false} EmitAdd(items: seq<Instr<Class>>, ins: Instr<Class>)
    requires ItemsOk(items) && ItemOk(ins)
    ensures ItemsOk(items + [ins]) && Emit(items + [ins]) == Emit(items) + ItemBytes(ins)
  {
    assert (items + [ins])[..|items|] == items;
  }

  lemma {:induction false} LowerAllOk(items: seq<Instr<Class>>)
    requires ItemsOk(items)
    ensures ProgWf(LowerAll(items))
  {
    forall i | 0 <= i < |items| ensures InstrWf(LowerAll(items)[i]) { LowerOk(items[i]); }
  }

  /** A program's bytes without the final CCEOF. */
  function Front(prog: seq<Instr<Cell>>): seq<byte>
    requires ProgWf(prog)
  {
    if prog == [] then [] else Bytes(prog[0]) + Front(prog[1..])
  }

  lemma {:induction false} EncodeFront(prog: seq<Instr<Cell>>)
    requires ProgWf(prog)
    ensures Encode(prog) == Front(prog) + [CCEOF]
    decreases |prog|
  {
    if prog != [] {
      EncodeFront(prog[1..]);
      assert Bytes(prog[0]) + (Front(prog[1..]) + [CCEOF]) == Bytes(prog[0]) + Front(prog[1..]) + [CCEOF];
    }
  }

  lemma {:induction false} FrontAdd(prog: seq<Instr<Cell>>, ins: Instr<Cell>)
    requires ProgWf(prog) && InstrWf(ins)
    ensures ProgWf(prog + [ins]) && Front(prog + [ins]) == Front(prog) + Bytes(ins)
    decreases |prog|
  {
    var all := prog + [ins];
    if prog == [] {
      assert all[1..] == [] && Front(all[1..]) == [];
    } else {
      var head, rest := Bytes(prog[0]), Front(prog[1..]);
      assert all[1..] == prog[1..] + [ins];
      FrontAdd(prog[1..], ins);
      assert head + (rest + Bytes(ins)) == head + rest + Bytes(ins);
    }
  }

  lemma {:induction false} EmitIsFront(items: seq<Instr<Class>>)
    requires ItemsOk(items)
    ensures ProgWf(LowerAll(items)) && Front(LowerAll(items)) == Emit(items)
    decreases |items|
  {
    LowerAllOk(items);
    if items != [] {
      var n := |items| - 1;
      EmitIsFront(items[..n]);
      LowerOk(items[n]);
      assert LowerAll(items) == LowerAll(items[..n]) + [LowerInstr(items[n])];
      FrontAdd(LowerAll(items[..n]), LowerInstr(items[n]));
    }
  }

  /** What the compiler writes, item after item, is the encoded program. */
  lemma {:induction false} EmitIsEncode(items: seq<Instr<Class>>)
    requires ItemsOk(items)
    ensures ProgWf(LowerAll(items)) && Encode(LowerAll(items)) == Emit(items) + [CCEOF]
  {
    EmitIsFront(items);
    EncodeFront(LowerAll(items));
  }

  lemma {:induction false} ItemBytesSingle(cls: Class, rep: Rep)
    requires ItemOk(Single(cls, rep))
    ensures ItemBytes(Single(cls, rep)) ==
            [CellOp(Lower(cls)) + RepBits(rep)] + CellBytes(Lower(cls)) + RepBytes(rep)
  {}

  // ---- Patching the last opcode ----

  lemma {:induction false} MarkedCell(cell: Cell, rep: Rep, more: Rep)
    requires !rep.Range? && !more.Once?
    ensures Marked(CellOp(cell) + RepBits(rep), more) == CellOp(cell) + RepBits(more)
  {}

  lemma {:induction false} MarkedOdd(op: byte, rep: Rep)
    requires !rep.Once?
    ensures Marked(op, rep) % 2 == 1
  {}

  /** The bytes of a single-character element, patched. */
  lemma {:induction false} SingleMarked(cls: Class, rep: Rep, more: Rep)
    requires !rep.Range? && !more.Once? && ItemOk(Single(cls, more))
    ensures var b := ItemBytes(Single(cls, rep));
      ItemBytes(Single(cls, more)) == b[0 := Marked(b[0], more)] + RepBytes(more)
  {
    ItemBytesSingle(cls, rep);
    ItemBytesSingle(cls, more);
    MarkedCell(Lower(cls), rep, more);
  }

  /** *lastep |= STAR */
  lemma {:induction false} StarBytes(ins: Instr<Class>)
    requires ItemOk(ins)
    ensures ItemOk(Starred(ins))
    ensures var b := ItemBytes(ins); ItemBytes(Starred(ins)) == b[0 := Marked(b[0], Star)]
  {
    match ins
    case Single(cls, rep) =>
      if rep.Once? { SingleMarked(cls, rep, Star); } else { StarAgain(ins); }
    case Patched(inner, rep) => StarAgain(ins);
    case _ =>
  }

  /** An instruction that is repeated already. */
  lemma {:induction false} StarAgain(ins: Instr<Class>)
    requires ItemOk(ins) && ((ins.Single? && !ins.rep.Once?) || ins.Patched?)
    ensures var b := ItemBytes(ins); b == b[0 := Marked(b[0], Star)]
  {
    if ins.Single? {
      ItemBytesSingle(ins.cls, ins.rep);
    } else {
      MarkedOdd(ItemBytes(ins.inner)[0], ins.rep);
    }
  }

  /** *lastep |= RNGE, and the limits. */
  lemma {:induction false} RangeBytes(ins: Instr<Class>, lo: byte, hi: byte)
    requires ItemOk(ins) && lo <= hi
    ensures ItemOk(Ranged(ins, lo, hi))
    ensures var b := ItemBytes(ins); ItemBytes(Ranged(ins, lo, hi)) == b[0 := Marked(b[0], Range(lo, hi))] + [lo, hi]
  {
    if ins.Single? && !ins.rep.Range? { SingleMarked(ins.cls, ins.rep, Range(lo, hi)); }
  }

  /** The code with its last item replaced. */
  lemma {:induction false} SetLastEmit(p: Partial, ins: Instr<Class>)
    requires ItemsOk(p.items) && p.items != [] && ItemOk(ins)
    ensures ItemsOk(SetLast(p, ins).items)
    ensures var front := Emit(p.items[..|p.items| - 1]);
      Emit(p.items) == front + ItemBytes(Last(p)) && Emit(SetLast(p, ins).items) == front + ItemBytes(ins)
  {
    EmitAdd(p.items[..|p.items| - 1], ins);
  }

  /** A star adds no byte. */
  lemma {:induction false} StarredEmit(p: Partial)
    requires ItemsOk(p.items) && p.items != []
    ensures var q := SetLast(p, Starred(Last(p))); ItemsOk(q.items) && |Emit(q.items)| == |Emit(p.items)|
  {
    assert ItemOk(p.items[|p.items| - 1]);
    StarBytes(Last(p));
    SetLastEmit(p, Starred(Last(p)));
  }

  /** An interval adds its two limits. */
  lemma {:induction false} RangedEmit(p: Partial, lo: byte, hi: byte)
    requires ItemsOk(p.items) && p.items != [] && lo <= hi
    ensures var q, was := SetLast(p, Ranged(Last(p), lo, hi)), |Emit(p.items)|;
      ItemsOk(q.items) && |Emit(q.items)| == was + 2 && Emit(q.items)[was + 1] == hi
  {
    assert ItemOk(p.items[|p.items| - 1]);
    RangeBytes(Last(p), lo, hi);
    SetLastEmit(p, Ranged(Last(p), lo, hi));
  }

  predicate IsLiteralStar(p: Partial) {
    p.items == [] || Last(p).Bra? || Last(p).Ket?
  }

  /** The item that a piece adds, if it adds one. */
  function Added(p: Partial, piece: Piece): Option<Instr<Class>> {
    match piece
    case Elem(cls) => Some(Single(cls, Once))
    case Dollar => Some(Dol)
    case OpenGroup => Some(Bra(p.nbra))
    case CloseGroup => if p.stack == [] then None else Some(Ket(p.stack[0]))
    case Digit(k) => Some(Back(k))
    case Asterisk => if IsLiteralStar(p) then Some(Single(Lit(Ch('*')), Once)) else None
    case _ => None
  }

  /** Every piece adds the bytes of an item, the limits of an interval, or none. */
  lemma {:induction false} ExtendEmit(p: Partial, piece: Piece)
    requires PartialOk(p) && Extend(p, piece).Good? && PartialOk(Extend(p, piece).value)
    requires piece.Interval? ==> piece.lo <= piece.hi
    ensures var was, now, ins := Emit(p.items), Emit(Extend(p, piece).value.items), Added(p, piece);
      if ins.Some? then ItemOk(ins.value) && now == was + ItemBytes(ins.value)
      else if piece.Interval? && p.items != [] then |now| == |was| + 2 && now[|was| + 1] == piece.hi
      else |now| == |was|
  {
    var ins, q := Added(p, piece), Extend(p, piece).value;
    if ins.Some? {
      assert q.items == p.items + [ins.value];
      assert ItemOk(q.items[|p.items|]);
      EmitAdd(p.items, ins.value);
    } else if piece.Asterisk? {
      StarredEmit(p);
    } else if piece.Interval? && p.items != [] {
      RangedEmit(p, piece.lo, piece.hi);
    }
  }

  lemma {:induction false} ParseGrows(src: seq<letter>, i: nat, eof: byte, sed: bool, p: Partial)
    requires PartialOk(p)
    requires ParseFrom(src, i, eof, sed, p).Good?
    ensures ItemsOk(ParseFrom(src, i, eof, sed, p).value)
    ensures |Emit(ParseFrom(src, i, eof, sed, p).value)| >= |Emit(p.items)|
    decreases |src| + 1 - i
  {
    var lexed := LexPiece(src, i, eof, sed, p.items == []);
    LexIntervalOrdered(src, i, eof, sed, p.items == []);
    if !lexed.value.Stop? {
      ExtendOk(p, lexed.value);
      ExtendEmit(p, lexed.value);
      ParseGrows(src, lexed.next, eof, sed, Extend(p, lexed.value).value);
    }
  }

  // ---- Bit tables in place ----

  /** n bytes at ep form the bit table of a set. */
  ghost predicate Table(code: seq<byte>, ep: nat, members: set<int>, n: nat) {
    ep + n <= |code| && forall j :: 0 <= j < n ==> code[ep + j] == PackByte(members, j)
  }

  lemma {:induction false} TableIsBitmap(code: seq<byte>, ep: nat, members: set<int>, n: nat)
    requires Table(code, ep, members, n)
    ensures code[ep..ep + n] == Bitmap(members, n)
  {}

  lemma {:induction false} PackByteAgree(a: set<int>, b: set<int>, j: nat)
    requires forall x :: 8 * j <= x < 8 * j + 8 ==> (x in a <==> x in b)
    ensures PackByte(a, j) == PackByte(b, j)
  {
    PackAgree(a, b, 8 * j, 8);
  }

  lemma {:induction false} PackEmpty(base: int, n: nat)
    ensures Pack({}, base, n) == 0
    decreases n
  {
    if n > 0 { PackEmpty(base + 1, n - 1); }
  }

  lemma {:induction false} PackByteOr(members: set<int>, c: byte)
    ensures OrBit(PackByte(members, c / 8), c % 8) == PackByte(members + {c}, c / 8)
  {
    PackOr(members, 8 * (c / 8), 8, c % 8);
    assert 8 * (c / 8) + c % 8 == c;
  }

  /** b ^ 0377 and the complement. */
  lemma {:induction false} PackByteInvert(members: set<int>, j: nat)
    requires j < 32
    ensures 255 - PackByte(members, j) == PackByte((set x | 0 <= x < 256 && x !in members), j)
  {
    var others := set x | 0 <= x < 256 && x !in members;
    assert Pow2(8) == 256;
    PackInvert(members, others, 8 * j, 8);
  }

  lemma {:induction false} PackClear(members: set<int>, base: int, n: nat)
    requires n > 0
    ensures Pack(members, base, n) - Pack(members, base, n) % 2 == Pack(members - {base}, base, n)
  {
    Halve(InBit(members, base), Pack(members, base + 1, n - 1));
    PackAgree(members, members - {base}, base + 1, n - 1);
  }

  /** b & 0376 drops member 0. */
  lemma {:induction false} PackByteClear(members: set<int>)
    ensures PackByte(members, 0) - PackByte(members, 0) % 2 == PackByte(members - {0}, 0)
  {
    PackClear(members, 0, 8);
  }

  lemma {:induction false} MembersAdd(spans: seq<Span>, span: Span)
    ensures Members(spans + [span]) == Members(spans) + set x | 0 <= x < 256 && InSpan(x, span)
  {
    forall x | 0 <= x < 256
      ensures InSpans(x, spans + [span]) <==> InSpans(x, spans) || InSpan(x, span)
    {
      if InSpans(x, spans) {
        var i :| 0 <= i < |spans| && InSpan(x, spans[i]);
        assert (spans + [span])[i] == spans[i];
      }
      assert (spans + [span])[|spans|] == span;
    }
  }

  lemma {:induction false} IsWideAdd(spans: seq<Span>, span: Span)
    ensures IsWide(spans + [span]) <==> IsWide(spans) || span.lo >= 128 || span.hi >= 128
  {
    if IsWide(spans) {
      var i :| 0 <= i < |spans| && (spans[i].lo >= 128 || spans[i].hi >= 128);
      assert (spans + [span])[i] == spans[i];
    }
    assert (spans + [span])[|spans|] == span;
  }

  lemma {:induction false} NarrowMembers(spans: seq<Span>)
    requires !IsWide(spans)
    ensures forall x :: x in Members(spans) ==> x < 128
  {}
}
