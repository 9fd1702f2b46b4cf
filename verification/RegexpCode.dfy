/** Compiled patterns: flat instructions, their bytes, and how bytes decode. */
module RegexpCode {
  import opened RegexpBits
  import opened RegexpTree
  import opened Options

  const CBRA: byte := 2
  const CCHR: byte := 4
  const CDOT: byte := 8
  const CCL: byte := 12
  const CXCL: byte := 16
  const CDOL: byte := 20
  const CCEOF: byte := 22
  const CKET: byte := 24
  const CBACK: byte := 36
  const NCCL: byte := 40

  const STAR: byte := 1
  const RNGE: byte := 3

  const NBRA := 9

  /**
   * One instruction over a representation C of single-character elements.  Patched: compile
   * has put a repetition on an instruction for which advance has none.
   */
  datatype Instr<C> =
    | Single(cls: C, rep: Rep)
    | Dol
    | Bra(k: nat)
    | Ket(k: nat)
    | Back(k: nat)
    | BackStar(k: nat)
    | Patched(inner: Instr<C>, rep: Rep)

  /** The three bracket encodings carry their bit tables. */
  datatype Cell = Dot | Chr(c: byte) | Ccl(bits: seq<byte>) | Nccl(bits: seq<byte>) | Cxcl(bits: seq<byte>)

  predicate CellOk(cell: Cell) {
    match cell
    case Dot => true
    case Chr(c) => c != 0
    case Ccl(bits) => |bits| == 16
    case Nccl(bits) => |bits| == 16
    case Cxcl(bits) => |bits| == 32
  }

  /** The test advance makes for an element. */
  predicate CellHas(cell: Cell, x: byte) {
    match cell
    case Dot => x != 0
    case Chr(c) => x == c
    case Ccl(bits) => x < 128 && |bits| == 16 && IsThere(bits, 0, x)
    case Nccl(bits) => !(x < 128 && |bits| == 16 && IsThere(bits, 0, x))
    case Cxcl(bits) => |bits| == 32 && IsThere(bits, 0, x)
  }

  /** A cell that may appear in a program: complete, and NUL never passes its test. */
  predicate CellWf(cell: Cell) {
    CellOk(cell) && !CellHas(cell, 0)
  }

  // ---- Bracket expressions as bit tables ----

  predicate IsWide(spans: seq<Span>) {
    exists i :: 0 <= i < |spans| && (spans[i].lo >= 128 || spans[i].hi >= 128)
  }

  function Others(members: set<int>): set<int> {
    set x | 1 <= x < 256 && x !in members
  }

  function Lower(cls: Class): Cell {
    match cls
    case Any => Dot
    case Lit(c) => Chr(c)
    case Bracket(neg, spans) =>
      var m := Members(spans);
      if IsWide(spans) then Cxcl(Bitmap(if neg then Others(m) else m, 32))
      else if neg then Nccl(Bitmap(m + {0}, 16))
      else Ccl(Bitmap(m, 16))
  }

  /** Character-class bitmaps are exact, and NUL never matches. */
  lemma {:induction false} LowerExact(cls: Class, x: byte)
    ensures CellWf(Lower(cls))
    ensures CellHas(Lower(cls), x) <==> ClassHas(cls, x)
  {
    LowerExactAt(cls, 0);
    LowerExactAt(cls, x);
  }

  lemma {:induction false} LowerExactAt(cls: Class, x: byte)
    ensures CellOk(Lower(cls))
    ensures CellHas(Lower(cls), x) <==> ClassHas(cls, x)
  {
    if cls.Bracket? {
      var m := Members(cls.spans);
      if IsWide(cls.spans) {
        BitmapHas(if cls.neg then Others(m) else m, 32, x);
      } else if x < 128 {
        BitmapHas(if cls.neg then m + {0} else m, 16, x);
      }
    }
  }

  /** The short negated table decides the same set as the inverted long one. */
  lemma {:induction false} NegatedFormsAgree(spans: seq<Span>, x: byte)
    requires !IsWide(spans)
    ensures CellOk(Lower(Bracket(true, spans)))
    ensures CellHas(Lower(Bracket(true, spans)), x)
       <==> CellHas(Cxcl(Bitmap(Others(Members(spans)), 32)), x)
  {
    LowerExact(Bracket(true, spans), x);
    BitmapHas(Others(Members(spans)), 32, x);
  }

  // ---- Encoding ----

  function RepBits(rep: Rep): byte {
    match rep
    case Once => 0
    case Star => STAR
    case Range(_, _) => RNGE
  }

  function RepBytes(rep: Rep): seq<byte> {
    match rep
    case Range(lo, hi) => [lo, hi]
    case _ => []
  }

  function CellOp(cell: Cell): byte {
    match cell
    case Dot => CDOT
    case Chr(_) => CCHR
    case Ccl(_) => CCL
    case Nccl(_) => NCCL
    case Cxcl(_) => CXCL
  }

  function CellBytes(cell: Cell): seq<byte> {
    match cell
    case Dot => []
    case Chr(c) => [c]
    case Ccl(bits) => bits
    case Nccl(bits) => bits
    case Cxcl(bits) => bits
  }

  predicate InstrWf(ins: Instr<Cell>) {
    match ins
    case Single(cell, rep) => CellWf(cell) && (rep.Range? ==> rep.lo <= rep.hi)
    case Dol => true
    case Bra(k) => k < NBRA
    case Ket(k) => k < NBRA
    case Back(k) => k < NBRA
    case BackStar(k) => k < NBRA
    case Patched(inner, rep) => InstrWf(inner) && !rep.Once?
  }

  /** An opcode with the repetition bits or-ed in. */
  function Marked(op: byte, rep: Rep): byte {
    match rep
    case Once => op
    case Star => op - op % 2 + 1
    case Range(_, _) => op - op % 4 + 3
  }

  lemma {:induction false} MarkedIsOr(op: byte)
    ensures Marked(op, Star) == OrBit(op, 0)
    ensures forall lo, hi :: Marked(op, Range(lo, hi)) == OrBit(OrBit(op, 0), 1)
  {
    var odd := op - op % 2 + 1;
    assert OrBit(odd, 1) == 2 * OrBit(odd / 2, 0) + odd % 2;
  }

  function Bytes(ins: Instr<Cell>): (b: seq<byte>)
    requires InstrWf(ins)
    ensures b != []
  {
    match ins
    case Single(cell, rep) => [CellOp(cell) + RepBits(rep)] + CellBytes(cell) + RepBytes(rep)
    case Dol => [CDOL]
    case Bra(k) => [CBRA, k]
    case Ket(k) => [CKET, k]
    case Back(k) => [CBACK, k]
    case BackStar(k) => [CBACK + STAR, k]
    case Patched(inner, rep) => var b := Bytes(inner); b[0 := Marked(b[0], rep)] + RepBytes(rep)
  }

  predicate ProgWf(prog: seq<Instr<Cell>>) {
    forall i :: 0 <= i < |prog| ==> InstrWf(prog[i])
  }

  function Encode(prog: seq<Instr<Cell>>): seq<byte>
    requires ProgWf(prog)
  {
    if prog == [] then [CCEOF] else Bytes(prog[0]) + Encode(prog[1..])
  }

  // ---- Decoding ----

  /** The operand size of a single-character opcode without its repetition bits. */
  function Width(op: byte): nat {
    if op == CCHR then 1
    else if op == CCL || op == NCCL then 16
    else if op == CXCL then 32
    else 0
  }

  predicate IsCellOp(op: byte) {
    op == CCHR || op == CDOT || op == CCL || op == CXCL || op == NCCL
  }

  function CellAt(code: seq<byte>, op: byte, ep: nat): Cell
    requires IsCellOp(op) && ep + Width(op) <= |code|
  {
    if op == CCHR then Chr(code[ep])
    else if op == CDOT then Dot
    else if op == CCL then Ccl(code[ep..ep + 16])
    else if op == NCCL then Nccl(code[ep..ep + 16])
    else Cxcl(code[ep..ep + 32])
  }

  /** A single-character instruction with opcode base and repetition bits low, operands at ep. */
  function FetchSingle(code: seq<byte>, base: byte, low: byte, ep: nat): (r: Option<(Instr<Cell>, nat)>)
    requires IsCellOp(base) && ep <= |code|
    ensures r.Some? ==> ep <= r.value.1 <= |code| && InstrWf(r.value.0)
  {
    var at := ep + Width(base);
    if at > |code| then None
    else
      var cell := CellAt(code, base, ep);
      if !CellWf(cell) then None
      else if low == 0 then Some((Single(cell, Once), at))
      else if low == STAR then Some((Single(cell, Star), at))
      else if low != RNGE || at + 2 > |code| || code[at] > code[at + 1] then None
      else Some((Single(cell, Range(code[at], code[at + 1])), at + 2))
  }

  /** The instruction at ep and the offset after it, if well formed; CCEOF is not one. */
  function Fetch(code: seq<byte>, ep: nat): (r: Option<(Instr<Cell>, nat)>)
    ensures r.Some? ==> ep < r.value.1 <= |code| && InstrWf(r.value.0)
  {
    if ep >= |code| then None
    else
      var op := code[ep];
      if IsCellOp(op - op % 4) then FetchSingle(code, op - op % 4, op % 4, ep + 1)
      else if op == CDOL then Some((Dol, ep + 1))
      else if ep + 1 >= |code| || code[ep + 1] >= NBRA then None
      else if op == CBRA then Some((Bra(code[ep + 1]), ep + 2))
      else if op == CKET then Some((Ket(code[ep + 1]), ep + 2))
      else if op == CBACK then Some((Back(code[ep + 1]), ep + 2))
      else if op == CBACK + STAR then Some((BackStar(code[ep + 1]), ep + 2))
      else None
  }

  /** The instructions from ep up to CCEOF. */
  function Decode(code: seq<byte>, ep: nat): (r: Option<seq<Instr<Cell>>>)
    ensures r.Some? ==> ep < |code| && ProgWf(r.value)
    decreases |code| - ep
  {
    if ep < |code| && code[ep] == CCEOF then Some([])
    else
      var f := Fetch(code, ep);
      if f.None? then None
      else
        var rest := Decode(code, f.value.1);
        if rest.None? then None else Some([f.value.0] + rest.value)
  }

  /** The bytes b stand at offset ep. */
  predicate Holds(code: seq<byte>, ep: nat, b: seq<byte>) {
    ep + |b| <= |code| && forall j :: 0 <= j < |b| ==> b[j] == code[ep + j]
  }

  lemma {:induction false} SplitHolds(code: seq<byte>, ep: nat, a: seq<byte>, b: seq<byte>)
    requires Holds(code, ep, a + b)
    ensures Holds(code, ep, a) && Holds(code, ep + |a|, b)
  {
    forall j | 0 <= j < |a| ensures a[j] == code[ep + j] {
      assert (a + b)[j] == a[j];
    }
    forall j | 0 <= j < |b| ensures b[j] == code[ep + |a| + j] {
      assert (a + b)[|a| + j] == b[j];
    }
  }

  lemma {:induction false} CellBytesWidth(cell: Cell)
    requires CellOk(cell)
    ensures IsCellOp(CellOp(cell)) && |CellBytes(cell)| == Width(CellOp(cell))
  {}

  lemma {:induction false} FetchSingleBytes(code: seq<byte>, ep: nat, cell: Cell, rep: Rep)
    requires InstrWf(Single(cell, rep))
    requires |CellBytes(cell)| == Width(CellOp(cell))
    requires Holds(code, ep, CellBytes(cell) + RepBytes(rep))
    ensures FetchSingle(code, CellOp(cell), RepBits(rep), ep)
         == Some((Single(cell, rep), ep + |CellBytes(cell)| + |RepBytes(rep)|))
  {
    var c, r := CellBytes(cell), RepBytes(rep);
    SplitHolds(code, ep, c, r);
    assert code[ep..ep + |c|] == c;
    assert CellAt(code, CellOp(cell), ep) == cell;
    if rep.Range? {
      assert r[0] == code[ep + |c|] && r[1] == code[ep + |c| + 1];
    }
  }

  lemma {:induction false} OpParts(cell: Cell, rep: Rep)
    ensures var op := CellOp(cell) + RepBits(rep);
      op != CCEOF && op - op % 4 == CellOp(cell) && op % 4 == RepBits(rep) && IsCellOp(CellOp(cell))
  {}

  /** Fetching from emitted bytes gives back the instruction. */
  lemma {:induction false} FetchBytes(code: seq<byte>, ep: nat, ins: Instr<Cell>)
    requires InstrWf(ins) && !ins.Patched?
    requires Holds(code, ep, Bytes(ins))
    ensures code[ep] != CCEOF
    ensures Fetch(code, ep) == Some((ins, ep + |Bytes(ins)|))
  {
    var b := Bytes(ins);
    assert b[0] == code[ep];
    if ins.Single? {
      CellBytesWidth(ins.cls);
      OpParts(ins.cls, ins.rep);
      var operands := CellBytes(ins.cls) + RepBytes(ins.rep);
      assert b == [b[0]] + operands;
      SplitHolds(code, ep, [b[0]], operands);
      FetchSingleBytes(code, ep + 1, ins.cls, ins.rep);
    } else if !ins.Dol? {
      assert b[1] == code[ep + 1];
    }
  }

  lemma {:induction false} DecodeBytes(code: seq<byte>, ep: nat, ins: Instr<Cell>, rest: seq<Instr<Cell>>)
    requires InstrWf(ins) && !ins.Patched?
    requires Holds(code, ep, Bytes(ins))
    requires Decode(code, ep + |Bytes(ins)|) == Some(rest)
    ensures Decode(code, ep) == Some([ins] + rest)
  {
    FetchBytes(code, ep, ins);
  }

  predicate Unpatched<C>(prog: seq<Instr<C>>) {
    forall i :: 0 <= i < |prog| ==> !prog[i].Patched?
  }

  /** Decoding inverts encoding, wherever in a buffer the bytes stand. */
  lemma {:induction false} DecodeEncode(code: seq<byte>, ep: nat, prog: seq<Instr<Cell>>)
    requires ProgWf(prog) && Unpatched(prog)
    requires Holds(code, ep, Encode(prog))
    ensures Decode(code, ep) == Some(prog)
    decreases |prog|, 0
  {
    if prog == [] {
      assert Encode(prog)[0] == code[ep];
    } else {
      assert [prog[0]] + prog[1..] == prog;
      DecodeEncodeStep(code, ep, prog[0], prog[1..]);
    }
  }

  lemma {:induction false} DecodeEncodeStep(code: seq<byte>, ep: nat, ins: Instr<Cell>, rest: seq<Instr<Cell>>)
    requires InstrWf(ins) && !ins.Patched? && ProgWf(rest) && Unpatched(rest)
    requires Holds(code, ep, Bytes(ins) + Encode(rest))
    ensures Decode(code, ep) == Some([ins] + rest)
    decreases |rest|, 1
  {
    SplitHolds(code, ep, Bytes(ins), Encode(rest));
    DecodeEncode(code, ep + |Bytes(ins)|, rest);
    DecodeBytes(code, ep, ins, rest);
  }

  // ---- Scoping ----

  /**
   * Groups are balanced and numbered apart, and a back-reference names a group that
   * has been closed.  open is the stack of groups being matched.
   */
  predicate Scoped<C>(prog: seq<Instr<C>>, open: seq<nat>, closed: set<nat>) {
    if prog == [] then open == []
    else
      var rest := prog[1..];
      match prog[0]
      case Bra(k) => k < NBRA && k !in open && k !in closed && Scoped(rest, [k] + open, closed)
      case Ket(k) => open != [] && open[0] == k && Scoped(rest, open[1..], closed + {k})
      case Back(k) => k in closed && Scoped(rest, open, closed)
      case BackStar(k) => k in closed && Scoped(rest, open, closed)
      case Patched(_, _) => false
      case _ => Scoped(rest, open, closed)
  }

  lemma {:induction false} ScopedUnpatched<C>(prog: seq<Instr<C>>, open: seq<nat>, closed: set<nat>)
    requires Scoped(prog, open, closed)
    ensures Unpatched(prog)
    decreases |prog|
  {
    if prog != [] {
      match prog[0]
      case Bra(k) => ScopedUnpatched(prog[1..], [k] + open, closed);
      case Ket(k) => ScopedUnpatched(prog[1..], open[1..], closed + {k});
      case Patched(_, _) =>
      case _ => ScopedUnpatched(prog[1..], open, closed);
    }
  }

  /** The groups a program opens, and those it closes. */
  function Opens<C>(prog: seq<Instr<C>>): set<nat> {
    if prog == [] then {}
    else (if prog[0].Bra? then {prog[0].k} else {}) + Opens(prog[1..])
  }

  function Closes<C>(prog: seq<Instr<C>>): set<nat> {
    if prog == [] then {}
    else (if prog[0].Ket? then {prog[0].k} else {}) + Closes(prog[1..])
  }

  /** A scoped program does not reopen a group met before it, nor close one twice. */
  lemma {:induction false} ScopedFresh<C>(prog: seq<Instr<C>>, open: seq<nat>, closed: set<nat>, x: nat)
    requires Scoped(prog, open, closed)
    requires x in open || x in closed
    ensures x !in Opens(prog)
    ensures x !in open ==> x !in Closes(prog)
    decreases |prog|
  {
    if prog != [] {
      var rest := prog[1..];
      match prog[0]
      case Bra(k) =>
        assert ([k] + open)[1..] == open;
        ScopedFresh(rest, [k] + open, closed, x);
      case Ket(k) =>
        assert open == [k] + open[1..];
        ScopedFresh(rest, open[1..], closed + {k}, x);
      case Patched(_, _) =>
      case _ => ScopedFresh(rest, open, closed, x);
    }
  }
}
