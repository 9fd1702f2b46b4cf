/** compile: one pass over the text, writing byte code and patching the last opcode. */
module RegexpCompiler {
  import opened RegexpBits
  import opened RegexpTree
  import opened RegexpCode
  import opened RegexpMeaning
  import opened RegexpSyntax
  import opened RegexpGrammar
  import opened RegexpEmit
  import opened RegexpSized
  import opened Options

  /** Whether the element in hand was written, and where the text continues. */
  datatype Status = Next(sp: nat) | Failed(failure: Failure)

  /** What compile returns to its caller. */
  datatype Compilation = Reused | Compiled(length: nat) | Rejected(failure: Failure)

  /** What scanning on from a member adds to the members already seen. */
  function Prefixed(done: seq<Span>, more: Lexed<seq<Span>>): Lexed<seq<Span>> {
    if more.Bad? then more else Got(done + more.value, more.next)
  }

  lemma {:induction false} PrefixedAssoc(done: seq<Span>, span: Span, more: Lexed<seq<Span>>)
    ensures Prefixed(done, Prefixed([span], more)) == Prefixed(done + [span], more)
  {
    if more.Got? { assert done + ([span] + more.value) == done + [span] + more.value; }
  }

  function Cells(wide: bool): nat {
    if wide then 32 else 16
  }

  /** A table that holds no member above 127 may grow zero bytes. */
  lemma {:induction false} TableGrows(code: seq<byte>, ep: nat, members: set<int>)
    requires Table(code, ep, members, 16) && ep + 32 <= |code|
    requires forall x :: x in members ==> x < 128
    requires forall j :: ep + 16 <= j < ep + 32 ==> code[j] == 0
    ensures Table(code, ep, members, 32)
  {
    forall j | 16 <= j < 32 ensures code[ep + j] == PackByte(members, j) {
      PackEmpty(8 * j, 8);
      PackByteAgree(members, {}, j);
    }
  }

  lemma {:induction false} ZeroTable(code: seq<byte>, ep: nat)
    requires ep + 16 <= |code|
    requires forall j :: ep <= j < ep + 16 ==> code[j] == 0
    ensures Table(code, ep, {}, 16)
  {
    forall j | 0 <= j < 16 ensures code[ep + j] == PackByte({}, j) { PackEmpty(8 * j, 8); }
  }

  /** One byte of an inverted table; the first also loses its lowest bit. */
  lemma {:induction false} InvertByte(b: byte, members: set<int>, j: nat)
    requires j < 32 && b == PackByte(members, j)
    ensures j == 0 ==> 255 - b - (255 - b) % 2 == PackByte(Others(members), j)
    ensures j > 0 ==> 255 - b == PackByte(Others(members), j)
  {
    var others := set x | 0 <= x < 256 && x !in members;
    PackByteInvert(members, j);
    if j == 0 {
      PackByteClear(others);
      assert others - {0} == Others(members);
    } else {
      PackByteAgree(others, Others(members), j);
    }
  }

  /** Inverting every byte and clearing the lowest bit gives the table of the other letters. */
  lemma {:induction false} TableInvert(before: seq<byte>, after: seq<byte>, ep: nat, members: set<int>)
    requires Table(before, ep, members, 32) && |after| == |before|
    requires after[ep] == 255 - before[ep] - (255 - before[ep]) % 2
    requires forall j :: ep < j < ep + 32 ==> after[j] == 255 - before[j]
    ensures Table(after, ep, Others(members), 32)
  {
    forall j | 0 <= j < 32 ensures after[ep + j] == PackByte(Others(members), j) {
      InvertByte(before[ep + j], members, j);
    }
  }

  /** What ReadSpan finds: a failure, a hyphen before the closing bracket, or a member or range. */
  datatype OneSpan = NoSpan(failure: Failure) | Hyphen(next: nat) | OneSpan(span: Span, next: nat)

  /** After one more member: the expression may close here, or go on. */
  lemma {:induction false} MoreSpans(src: seq<letter>, next: nat, done: seq<Span>, span: Span, all: Lexed<seq<Span>>)
    requires 0 < next <= |src| && all == Prefixed(done, LexMore(src, next, span))
    ensures Get(src, next) == Ch(']') ==> all == Got(done + [span], next + 1)
    ensures Get(src, next) != Ch(']') ==> all == Prefixed(done + [span], LexSpans(src, next, span.hi))
  {
    PrefixedAssoc(done, span, LexSpans(src, next, span.hi));
  }

  /** The set tabled for the members of a bracket expression. */
  function Tabled(neg: bool, wide: bool, members: set<int>): set<int> {
    if !neg then members else if wide then Others(members) else members + {0}
  }

  function BracketOp(neg: bool, wide: bool): byte {
    if wide then CXCL else if neg then NCCL else CCL
  }

  lemma {:induction false} BracketBytes(neg: bool, spans: seq<Span>)
    ensures var wide := IsWide(spans);
      ItemBytes(Single(Bracket(neg, spans), Once)) ==
      [BracketOp(neg, wide)] + Bitmap(Tabled(neg, wide, Members(spans)), Cells(wide))
  {
    ItemBytesSingle(Bracket(neg, spans), Once);
  }

  /** An opcode and a table after some code are the bytes of the expression after that code. */
  lemma {:induction false} BracketWritten(before: seq<byte>, code: seq<byte>, tb: nat, neg: bool, spans: seq<Span>)
    requires var wide := IsWide(spans);
      && tb == |before| + 1 && tb <= |code| && code[..tb - 1] == before && code[tb - 1] == BracketOp(neg, wide)
      && Table(code, tb, Tabled(neg, wide, Members(spans)), Cells(wide))
    ensures var b := ItemBytes(Single(Bracket(neg, spans), Once));
      && |b| == 1 + Cells(IsWide(spans))
      && code[..tb + Cells(IsWide(spans))] == before + b
  {
    var wide := IsWide(spans);
    BracketBytes(neg, spans);
    TableIsBitmap(code, tb, Tabled(neg, wide, Members(spans)), Cells(wide));
    assert code[..tb + Cells(wide)] == code[..tb - 1] + ([code[tb - 1]] + code[tb..tb + Cells(wide)]);
  }

  /** Patching the last opcode and adding the limits turns an item into one with an interval. */
  lemma {:induction false} RangePatched(items: seq<Instr<Class>>, last: Instr<Class>, before: seq<byte>,
                                        patched: seq<byte>, lo: byte, hi: byte)
    requires ItemsOk(items) && ItemOk(last) && lo <= hi
    requires before == Emit(items) + ItemBytes(last) && |Emit(items)| < |before|
    requires patched == before[|Emit(items)| := Marked(before[|Emit(items)|], Range(lo, hi))]
    ensures ItemOk(Ranged(last, lo, hi)) && patched + [lo, hi] == Emit(items) + ItemBytes(Ranged(last, lo, hi))
  {
    RangeBytes(last, lo, hi);
    var b := ItemBytes(last);
    assert patched == Emit(items) + b[0 := Marked(b[0], Range(lo, hi))];
  }

  /** What compile delivers for a text that comes to this in its buffer. */
  ghost predicate Delivers(sized: Built<seq<Instr<Class>>>, r: Compilation, code: seq<byte>) {
    match sized
    case Wrong(f) => r == Rejected(f)
    case Good(items) =>
      && ProgWf(LowerAll(items))
      && r == Compiled(|Encode(LowerAll(items))|)
      && r.length <= |code| && code[..r.length] == Encode(LowerAll(items))
  }

  /** The second byte for what has been read. */
  function SecondLexed(p: Partial, lexed: Lexed<RegexpSyntax.Piece>): Option<int> {
    if lexed.Got? then SecondOf(p, lexed.value) else None
  }

  /** The second byte for what follows a backslash. */
  function SecondEscaped(src: seq<letter>, i: nat, p: Partial): Option<int>
    requires i <= |src|
  {
    if Get(src, i) == Ch('{') && p.items != [] then SecondLimit(src, i + 1)
    else SecondLexed(p, LexEscape(src, i, p.items == []))
  }

  /** A piece of one character; last says that the pattern ends after it. */
  function LexChar(c: byte, next: nat, last: bool): Lexed<RegexpSyntax.Piece> {
    if c == Ch('.') then Got(Elem(Any), next)
    else if c == Ch('*') then Got(Asterisk, next)
    else if c == Ch('$') && last then Got(Dollar, next)
    else LexLit(c, next)
  }

  lemma {:induction false} CharIs(src: seq<letter>, i: nat, eof: byte, sed: bool, p: Partial, ep: nat, size: nat)
    requires i <= |src|
    requires var c := Get(src, i); c != eof && c != NL && c != Ch('[') && c != Ch('\\')
    ensures var c := Get(src, i);
      var lexed := LexChar(c, i + 1, c == Ch('$') && (Get(src, i + 1) == eof || Get(src, i + 1) == NL));
      && SizedLex(src, i, eof, sed, p.items == [], ep, size) == lexed
      && SecondAt(src, i, eof, sed, p) == SecondLexed(p, lexed)
  {}

  lemma {:induction false} EscapeIs(src: seq<letter>, i: nat, eof: byte, sed: bool, p: Partial, ep: nat, size: nat)
    requires i < |src| && src[i] == Ch('\\') && eof != Ch('\\')
    ensures SizedLex(src, i, eof, sed, p.items == [], ep, size) == LexEscape(src, i + 1, p.items == [])
    ensures SecondAt(src, i, eof, sed, p) == SecondEscaped(src, i + 1, p)
  {}

  function AsElem(b: Lexed<Class>): Lexed<RegexpSyntax.Piece> {
    if b.Bad? then Bad(b.failure) else Got(Elem(b.value), b.next)
  }

  lemma {:induction false} FirstByte(ins: Instr<Class>)
    requires ItemOk(ins)
    ensures ItemBytes(ins)[0] == CBRA <==> ins.Bra?
    ensures ItemBytes(ins)[0] == CKET <==> ins.Ket?
  {
    if ins.Patched? { MarkedOdd(ItemBytes(ins.inner)[0], ins.rep); }
  }

  /** The bracket stack, bottom first, holds the open groups, innermost first. */
  predicate Mirrors(bracket: seq<byte>, n: nat, stack: seq<nat>) {
    n == |stack| <= |bracket| && forall j :: 0 <= j < n ==> bracket[j] == stack[n - 1 - j] && bracket[j] < NBRA
  }

  lemma {:induction false} MirrorsPush(bracket: seq<byte>, n: nat, stack: seq<nat>, k: byte)
    requires Mirrors(bracket, n, stack) && n < |bracket| && k < NBRA
    ensures Mirrors(bracket[n := k], n + 1, [k] + stack)
  {
    var after := [k] + stack;
    forall j | 0 <= j < n ensures bracket[j] == after[n - j] { assert bracket[j] == stack[n - 1 - j]; }
  }

  lemma {:induction false} MirrorsPop(bracket: seq<byte>, n: nat, stack: seq<nat>)
    requires Mirrors(bracket, n, stack) && n > 0
    ensures bracket[n - 1] == stack[0] < NBRA && Mirrors(bracket, n - 1, stack[1..])
  {
    assert bracket[n - 1] == stack[n - 1 - (n - 1)];
    forall j | 0 <= j < n - 1 ensures bracket[j] == stack[1..][n - 2 - j] { assert bracket[j] == stack[n - 1 - j]; }
  }

  /** What one turn of the main loop comes to. */
  datatype Turn = More(sp: nat) | Ended | Stopped(failure: Failure)

  class Compiler {
    const buf: array<byte>
    const endbuf: nat
    const bracket: array<byte>
    var ep: nat
    var lastep: int
    var bracketp: nat
    var nbra: nat
    var closed: nat
    var circf: bool

    constructor (code: array<byte>, size: nat)
      requires size < code.Length
      ensures buf == code && endbuf == size && ep == 0
      ensures Bounds() && fresh(bracket)
    {
      buf, endbuf := code, size;
      bracket := new byte[NBRA];
      ep, lastep, bracketp, nbra, closed, circf := 0, -1, 0, 0, 0, false;
    }

    /** endbuf bytes are for code; the byte after them can be written too. */
    ghost predicate Bounds()
      reads this
    {
      && buf != bracket && bracket.Length == NBRA
      && ep <= endbuf + 1 <= buf.Length
      && -1 <= lastep < ep && bracketp <= nbra <= NBRA
    }

    /** The bytes below lo, and those not meant for code, are as before. */
    ghost predicate Keeps(before: seq<byte>, lo: int)
      reads buf
    {
      |before| == buf.Length && forall j :: 0 <= j < buf.Length && (j < lo || j >= endbuf) ==> buf[j] == before[j]
    }

    /** Of the bytes not meant for code, at most the first was written, and only with this. */
    ghost predicate Spills(before: seq<byte>, b: Option<int>)
      reads buf
    {
      && |before| == buf.Length && endbuf < buf.Length
      && buf[endbuf] == (if b.Some? then b.value else before[endbuf])
      && forall j :: endbuf < j < buf.Length ==> buf[j] == before[j]
    }

    /** PLACE(c) */
    method Place(ep: nat, c: byte, ghost members: set<int>, ghost n: nat)
      requires Table(buf[..], ep, members, n) && c < 8 * n
      modifies buf
      ensures Table(buf[..], ep, members + {c}, n)
      ensures forall j :: 0 <= j < buf.Length && !(ep <= j < ep + n) ==> buf[j] == old(buf[j])
    {
      PackByteOr(members, c);
      buf[ep + c / 8] := OrBit(buf[ep + c / 8], c % 8);
      forall j | 0 <= j < n ensures buf[..][ep + j] == PackByte(members + {c}, j) {
        if j != c / 8 { PackByteAgree(members, members + {c}, j); }
      }
    }

    /** Clears count bytes at ep. */
    method Zero(ep: nat, count: nat)
      requires ep + count <= buf.Length
      modifies buf
      ensures forall j :: ep <= j < ep + count ==> buf[j] == 0
      ensures forall j :: 0 <= j < buf.Length && !(ep <= j < ep + count) ==> buf[j] == old(buf[j])
    {
      for i := 0 to count
        invariant forall j :: ep <= j < ep + i ==> buf[j] == 0
        invariant forall j :: 0 <= j < buf.Length && !(ep <= j < ep + i) ==> buf[j] == old(buf[j])
      {
        buf[ep + i] := 0;
      }
    }

    /** Switches a bracket table at ep from 16 bytes to 32. */
    method Widen(ep: nat, ghost members: set<int>) returns (ok: bool)
      requires 0 < ep && ep + 16 <= endbuf < buf.Length
      requires Table(buf[..], ep, members, 16) && forall x :: x in members ==> x < 128
      modifies buf
      ensures ok == (ep + 32 < endbuf)
      ensures ok ==> buf[ep - 1] == CXCL && Table(buf[..], ep, members, 32)
      ensures Keeps(old(buf[..]), ep - 1)
    {
      if ep + 32 >= endbuf { return false; }
      buf[ep - 1] := CXCL;
      Zero(ep + 16, 16);
      TableGrows(buf[..], ep, members);
      ok := true;
    }

    /** Places lc, lc + 1, ... below c, and then c. */
    method PlaceSpan(ep: nat, lc: byte, c: byte, ghost members: set<int>, ghost n: nat)
      requires Table(buf[..], ep, members, n) && c < 8 * n && 0 < lc && 0 < c
      modifies buf
      ensures Table(buf[..], ep, members + (set x | 0 <= x < 256 && InSpan(x, Span(lc, c))), n)
      ensures forall j :: 0 <= j < buf.Length && !(ep <= j < ep + n) ==> buf[j] == old(buf[j])
    {
      var at: byte := lc;
      ghost var m := members;
      while at < c
        invariant lc <= at && (at == lc || at <= c)
        invariant forall x :: x in m <==> x in members || lc <= x < at
        invariant Table(buf[..], ep, m, n)
        invariant forall j :: 0 <= j < buf.Length && !(ep <= j < ep + n) ==> buf[j] == old(buf[j])
      {
        Place(ep, at, m, n);
        m := m + {at};
        at := at + 1;
      }
      Place(ep, c, m, n);
      assert m + {c} == members + set x | 0 <= x < 256 && InSpan(x, Span(lc, c));
    }

    /** Inverts a long table and drops NUL from it. */
    method Invert(ep: nat, ghost members: set<int>)
      requires Table(buf[..], ep, members, 32)
      modifies buf
      ensures Table(buf[..], ep, Others(members), 32)
      ensures forall j :: 0 <= j < buf.Length && !(ep <= j < ep + 32) ==> buf[j] == old(buf[j])
    {
      for i := ep to ep + 32
        invariant forall j :: ep <= j < i ==> buf[j] == 255 - old(buf[j])
        invariant forall j :: 0 <= j < buf.Length && !(ep <= j < i) ==> buf[j] == old(buf[j])
      {
        buf[i] := 255 - buf[i];
      }
      buf[ep] := buf[ep] - buf[ep] % 2;
      TableInvert(old(buf[..]), buf[..], ep, members);
    }

    /** Closes a negated expression: invert the long table, or mark the short one. */
    method Negate(ep: nat, wide: bool, ghost members: set<int>)
      requires 0 < ep && ep + Cells(wide) <= endbuf
      requires Table(buf[..], ep, members, Cells(wide)) && buf[ep - 1] == BracketOp(false, wide)
      modifies buf
      ensures buf[ep - 1] == BracketOp(true, wide)
      ensures Table(buf[..], ep, Tabled(true, wide, members), Cells(wide))
      ensures Keeps(old(buf[..]), ep - 1)
    {
      if wide {
        Invert(ep, members);
      } else {
        buf[ep - 1] := NCCL;
        Place(ep, 0, members, 16);
      }
    }

    /** A table at ep for the members done so far. */
    ghost predicate Building(ep: nat, done: seq<Span>, wide: bool)
      reads this, buf
    {
      && 0 < ep && ep + Cells(wide) < endbuf < buf.Length
      && buf[ep - 1] == BracketOp(false, wide)
      && Table(buf[..], ep, Members(done), Cells(wide))
    }

    /** Widens the table if the character c needs it. */
    method Reserve(ep: nat, c: byte, wide0: bool, ghost done: seq<Span>) returns (ok: bool, wide: bool)
      requires Building(ep, done, wide0) && (!wide0 ==> !IsWide(done))
      modifies buf
      ensures ok == (c < 128 || wide0 || ep + 32 < endbuf)
      ensures ok ==> Building(ep, done, wide) && wide == (wide0 || c >= 128)
      ensures Keeps(old(buf[..]), ep - 1)
    {
      ok, wide := true, wide0;
      if c >= 128 && !wide {
        NarrowMembers(done);
        ok := Widen(ep, Members(done));
        wide := true;
      }
    }

    /** Places a member or range. */
    method PutMember(ep: nat, lo: letter, c: letter, wide: bool, ghost done: seq<Span>)
      requires Building(ep, done, wide) && (c < 128 || wide)
      modifies buf
      ensures Building(ep, done + [Span(lo, c)], wide)
      ensures Keeps(old(buf[..]), ep - 1)
    {
      PlaceSpan(ep, lo, c, Members(done), Cells(wide));
      MembersAdd(done, Span(lo, c));
    }

    /** The characters of one member or range; lc is the last one, or 0. */
    method ReadSpan(src: seq<letter>, sp: nat, lc: byte) returns (r: OneSpan)
      requires sp <= |src|
      ensures match r
        case NoSpan(f) => LexSpans(src, sp, lc) == Bad(f) && !MeetsWide(src, sp, lc)
        case Hyphen(next) => LexSpans(src, sp, lc) == Got([Span(Ch('-'), Ch('-'))], next) && !MeetsWide(src, sp, lc)
        case OneSpan(span, next) =>
          && sp < next <= |src| && (span.lo == span.hi || span.lo == lc)
          && LexSpans(src, sp, lc) == LexMore(src, next, span)
          && MeetsWide(src, sp, lc) == (span.hi >= 128 || MeetsMore(src, next, span.hi))
    {
      var c := Get(src, sp);
      if c == 0 || c == NL { return NoSpan(Error(49)); }
      if c == Ch('-') && lc != 0 {
        c := Get(src, sp + 1);
        if c == Ch(']') { return Hyphen(sp + 2); }
        if c == 0 { return NoSpan(Overrun); }
        return OneSpan(Span(lc, c), sp + 2);
      }
      r := OneSpan(Span(c, c), sp + 1);
    }

    /** The scan of members up to the closing bracket, from sp, into the table at ep. */
    method ReadMembers(src: seq<letter>, start: nat, ep: nat) returns (r: Status, wide: bool)
      requires start <= |src| && Building(ep, [], false)
      modifies buf
      ensures Keeps(old(buf[..]), ep - 1)
      ensures if MeetsWide(src, start, 0) && ep + 32 >= endbuf then r == Failed(Error(50))
        else
          match LexSpans(src, start, 0)
          case Bad(f) => r == Failed(f)
          case Got(spans, next) => r == Next(next) && wide == IsWide(spans) && Building(ep, spans, wide)
    {
      ghost var all, done := LexSpans(src, start, 0), [];
      assert all.Got? ==> [] + all.value == all.value;
      var sp, ok := start, true;
      var lc: byte := 0;
      wide := false;
      while true
        invariant start <= sp <= |src|
        invariant all == Prefixed(done, LexSpans(src, sp, lc))
        invariant MeetsWide(src, start, 0) == (wide || MeetsWide(src, sp, lc))
        invariant wide == IsWide(done) && (lc >= 128 ==> wide) && Building(ep, done, wide)
        invariant Keeps(old(buf[..]), ep - 1)
        decreases |src| - sp
      {
        var one := ReadSpan(src, sp, lc);
        match one {
          case NoSpan(f) => return Failed(f), wide;
          case Hyphen(next) =>
            PutMember(ep, Ch('-'), Ch('-'), wide, done);
            IsWideAdd(done, Span(Ch('-'), Ch('-')));
            return Next(next), wide;
          case OneSpan(span, next) =>
            MoreSpans(src, next, done, span, all);
            ok, wide := Reserve(ep, span.hi, wide, done);
            if !ok { return Failed(Error(50)), wide; }
            PutMember(ep, span.lo, span.hi, wide, done);
            IsWideAdd(done, span);
            done := done + [span];
            sp, lc := next, span.hi;
            if Get(src, sp) == Ch(']') { return Next(sp + 1), wide; }
        }
      }
    }

    /** A bracket expression whose text starts at start, written at this.ep. */
    method Bracket(src: seq<letter>, start: nat) returns (r: Status)
      requires Bounds() && ep < endbuf && start <= |src|
      modifies buf, this`ep
      ensures Bounds() && Keeps(old(buf[..]), old(ep))
      ensures match (if HasRoom(src, start, old(ep), endbuf) then LexBracket(src, start) else Bad(Error(50)))
        case Bad(f) => r == Failed(f)
        case Got(cls, next) =>
          var b := ItemBytes(Single(cls, Once));
          r == Next(next) && ep == old(ep) + |b| && buf[..ep] == old(buf[..ep]) + b
    {
      if ep + 17 >= endbuf { return Failed(Error(50)); }
      var tb := ep + 1;
      buf[ep] := CCL;
      Zero(tb, 16);
      ZeroTable(buf[..], tb);
      assert Members([]) == {};
      var neg := Get(src, start) == Ch('^');
      var wide;
      r, wide := ReadMembers(src, MembersAt(src, start), tb);
      if r.Failed? { return; }
      ghost var spans := LexSpans(src, MembersAt(src, start), 0).value;
      if neg { Negate(tb, wide, Members(spans)); }
      BracketWritten(old(buf[..ep]), buf[..], tb, neg, spans);
      ep := tb + Cells(wide);
    }

    /** The code in the buffer is that of the items, and lastep is where the last one starts. */
    ghost predicate Holds(items: seq<Instr<Class>>)
      reads this`ep, this`lastep, buf
    {
      && ep <= buf.Length && ItemsOk(items) && buf[..ep] == Emit(items)
      && lastep == if items == [] then -1 else |Emit(items[..|items| - 1])|
    }

    ghost predicate Tracks(p: Partial)
      reads this, buf, bracket
    {
      Holds(p.items) && Counts(p)
    }

    ghost predicate Counts(p: Partial)
      reads this`nbra, this`closed, this`bracketp, bracket
    {
      nbra == p.nbra && closed == p.closed && Mirrors(bracket[..], bracketp, p.stack)
    }

    /** Writes an instruction with a one-byte operand. */
    method Put2(op: byte, operand: byte, ghost items: seq<Instr<Class>>, ghost ins: Instr<Class>)
      requires Bounds() && ep < endbuf
      requires Holds(items) && ItemOk(ins) && ItemBytes(ins) == [op, operand]
      modifies buf, this`ep, this`lastep
      ensures Bounds() && Holds(items + [ins])
      ensures Spills(old(buf[..]), Beyond(old(ep), endbuf, Some(operand)))
    {
      lastep := ep;
      buf[ep] := op;
      buf[ep + 1] := operand;
      ep := ep + 2;
      HoldsAdd(items, ins);
    }

    /** An instruction written after the code of the items is held with them. */
    lemma {:induction false} HoldsAdd(items: seq<Instr<Class>>, ins: Instr<Class>)
      requires ep <= buf.Length && ItemsOk(items) && ItemOk(ins)
      requires buf[..ep] == Emit(items) + ItemBytes(ins) && lastep == |Emit(items)|
      ensures Holds(items + [ins])
    {
      EmitAdd(items, ins);
      assert (items + [ins])[..|items|] == items;
    }

    /** The digits of an interval limit. */
    method ReadNumber(src: seq<letter>, start: nat) returns (r: Lexed<nat>)
      requires start <= |src|
      ensures r == LexNumber(src, start, 0)
    {
      var sp := start;
      var n: nat := 0;
      while true
        invariant start <= sp <= |src| && LexNumber(src, start, 0) == LexNumber(src, sp, n)
        decreases |src| - sp
      {
        var c := Get(src, sp);
        sp := sp + 1;
        if Ch('0') <= c <= Ch('9') { n := 10 * n + c - Ch('0'); } else { return Bad(Error(16)); }
        if Get(src, sp) == Ch('\\') || Get(src, sp) == Ch(',') { return Got(n, sp); }
      }
    }

    /** The limits of an interval, written at this.ep. */
    method ReadLimits(src: seq<letter>, start: nat) returns (r: Status)
      requires Bounds() && ep < endbuf && start <= |src|
      modifies buf, this`ep
      ensures Bounds()
      ensures Spills(old(buf[..]), Beyond(old(ep), endbuf, SecondLimit(src, start)))
      ensures match LexInterval(src, start)
        case Bad(f) => r == Failed(f)
        case Got(piece, next) =>
          r == Next(next) && ep == old(ep) + 2 && buf[..ep] == old(buf[..ep]) + [piece.lo, piece.hi]
    {
      var n := ReadNumber(src, start);
      if n.Bad? { return Failed(n.failure); }
      if n.value >= 255 { return Failed(Error(11)); }
      buf[ep] := n.value;
      ep := ep + 1;
      var sp := n.next + 1;
      if src[n.next] == Ch(',') {
        if Get(src, sp) == Ch('\\') {
          buf[ep] := 255;
          sp := sp + 1;
        } else {
          var m := ReadNumber(src, sp);
          if m.Bad? { return Failed(m.failure); }
          if m.value >= 255 { return Failed(Error(11)); }
          buf[ep] := m.value;
          if src[m.next] == Ch(',') { return Failed(Error(44)); }
          sp := m.next + 1;
        }
        if Get(src, sp) != Ch('}') { return Failed(Error(45)); }
        if buf[ep] < buf[ep - 1] { return Failed(Error(46)); }
      } else {
        if Get(src, sp) != Ch('}') { return Failed(Error(45)); }
        buf[ep] := n.value;
      }
      ep := ep + 1;
      r := Next(sp + 1);
    }

    /** *lastep |= STAR */
    method StarLast(ghost items: seq<Instr<Class>>)
      requires Bounds() && 0 <= lastep && Holds(items) && items != [] && ep < endbuf
      modifies buf
      ensures Bounds() && Holds(items[..|items| - 1] + [Starred(items[|items| - 1])])
      ensures Spills(old(buf[..]), None)
    {
      ghost var before, n := buf[..ep], |items| - 1;
      ghost var last := items[n];
      StarBytes(last);
      assert before == Emit(items[..n]) + ItemBytes(last);
      buf[lastep] := Marked(buf[lastep], Star);
      assert buf[..ep] == before[lastep := buf[lastep]];
      HoldsAdd(items[..n], Starred(last));
    }

    /** *lastep |= RNGE, and the limits after it. */
    method RangeLast(src: seq<letter>, start: nat, ghost p: Partial) returns (r: Status)
      requires Bounds() && 0 <= lastep && ep < endbuf && start <= |src|
      requires Holds(p.items) && p.items != []
      modifies buf, this`ep
      ensures Bounds()
      ensures Spills(old(buf[..]), Beyond(old(ep), endbuf, SecondLimit(src, start)))
      ensures match LexInterval(src, start)
        case Bad(f) => r == Failed(f)
        case Got(piece, next) => r == Next(next) && Holds(Extend(p, piece).value.items)
    {
      ghost var before := buf[..ep];
      buf[lastep] := Marked(buf[lastep], Range(0, 0));
      ghost var patched := buf[..ep];
      assert patched == before[lastep := Marked(before[lastep], Range(0, 0))];
      r := ReadLimits(src, start);
      if r.Next? {
        ghost var piece := LexInterval(src, start).value;
        HoldsRanged(p.items[..|p.items| - 1], Last(p), before, patched, piece.lo, piece.hi);
      }
    }

    /** The code of items that end in last, with its opcode patched and the limits added. */
    lemma {:induction false} HoldsRanged(front: seq<Instr<Class>>, last: Instr<Class>, before: seq<byte>,
                                         patched: seq<byte>,
                                         lo: byte, hi: byte)
      requires ItemsOk(front) && ItemOk(last) && lo <= hi && ep <= buf.Length
      requires before == Emit(front) + ItemBytes(last) && 0 <= lastep == |Emit(front)| < |before|
      requires patched == before[lastep := Marked(before[lastep], Range(0, 0))] && buf[..ep] == patched + [lo, hi]
      ensures Holds(front + [Ranged(last, lo, hi)])
    {
      RangePatched(front, last, before, patched, lo, hi);
      HoldsAdd(front, Ranged(last, lo, hi));
    }

    /** What a turn of the loop must do about the piece it finds. */
    ghost predicate Follows(p: Partial, lexed: Lexed<Piece>, r: Turn)
      reads this, buf, bracket
    {
      match lexed
      case Bad(f) => r == Stopped(f)
      case Got(piece, next) =>
        match Extend(p, piece)
        case Wrong(f) => r == Stopped(f)
        case Good(q) =>
          if piece.Stop? then
            if p.stack != [] then r == Stopped(Error(42))
            else r.Ended? && ItemsOk(p.items) && ep <= endbuf < buf.Length && buf[..ep] == Emit(p.items) + [CCEOF]
          else r == More(next) && Tracks(q)
    }

    /** The label defchar. */
    method Literal(c: letter, sp: nat, ghost p: Partial) returns (r: Turn)
      requires Bounds() && ep < endbuf && Tracks(p)
      modifies buf, this`ep, this`lastep
      ensures Bounds() && Follows(p, Got(Elem(Lit(c)), sp), r) && r == More(sp)
      ensures Tracks(Add(p, Single(Lit(c), Once)))
      ensures Spills(old(buf[..]), Beyond(old(ep), endbuf, Some(c)))
    {
      ItemBytesSingle(Lit(c), Once);
      Put2(CCHR, c, p.items, Single(Lit(c), Once));
      r := More(sp);
    }

    /** A one-byte instruction. */
    method Plain(op: byte, sp: nat, ghost p: Partial, ghost ins: Instr<Class>) returns (r: Turn)
      requires Bounds() && ep < endbuf && Tracks(p)
      requires (ins == Single(Any, Once) && op == CDOT) || (ins == Dol && op == CDOL)
      modifies buf, this`ep, this`lastep
      ensures Bounds() && Spills(old(buf[..]), None)
      ensures Follows(p, Got(if ins.Dol? then Dollar else Elem(Any), sp), r)
    {
      lastep := ep;
      buf[ep] := op;
      ep := ep + 1;
      HoldsAdd(p.items, ins);
      r := More(sp);
    }

    /** *bracketp++ = nbra++ */
    method Push(ghost p: Partial)
      requires bracket.Length == NBRA && bracketp <= nbra < NBRA && Counts(p)
      modifies bracket, this`nbra, this`bracketp
      ensures nbra == old(nbra) + 1 && bracketp == old(bracketp) + 1
      ensures Counts(p.(stack := [p.nbra] + p.stack, nbra := p.nbra + 1))
    {
      MirrorsPush(bracket[..], bracketp, p.stack, nbra);
      bracket[bracketp] := nbra;
      bracketp, nbra := bracketp + 1, nbra + 1;
    }

    method Open(sp: nat, ghost p: Partial) returns (r: Turn)
      requires Bounds() && ep < endbuf && Tracks(p)
      modifies buf, bracket, this`ep, this`lastep, this`nbra, this`bracketp
      ensures Bounds() && Follows(p, Got(OpenGroup, sp), r)
      ensures Spills(old(buf[..]), Beyond(old(ep), endbuf, SecondOf(p, OpenGroup)))
    {
      if nbra >= NBRA { return Stopped(Error(43)); }
      var k := nbra;
      Push(p);
      Put2(CBRA, k, p.items, Bra(k));
      r := More(sp);
    }

    method Close(sp: nat, ghost p: Partial) returns (r: Turn)
      requires Bounds() && ep < endbuf && Tracks(p)
      modifies buf, this`ep, this`lastep, this`closed, this`bracketp
      ensures Bounds() && Follows(p, Got(CloseGroup, sp), r)
      ensures Spills(old(buf[..]), Beyond(old(ep), endbuf, SecondOf(p, CloseGroup)))
    {
      if bracketp <= 0 { return Stopped(Error(42)); }
      MirrorsPop(bracket[..], bracketp, p.stack);
      bracketp := bracketp - 1;
      Put2(CKET, bracket[bracketp], p.items, Ket(bracket[bracketp]));
      closed := closed + 1;
      r := More(sp);
    }

    method BackReference(k: byte, sp: nat, ghost p: Partial) returns (r: Turn)
      requires Bounds() && ep < endbuf && k < NBRA && Tracks(p)
      modifies buf, this`ep, this`lastep
      ensures Bounds() && Follows(p, Got(Digit(k), sp), r)
      ensures Spills(old(buf[..]), Beyond(old(ep), endbuf, SecondOf(p, Digit(k))))
    {
      if k >= closed { return Stopped(Error(25)); }
      Put2(CBACK, k, p.items, Back(k));
      r := More(sp);
    }

    /** An asterisk: a literal after nothing or a group bracket, otherwise a repetition. */
    method Asterisk(sp: nat, ghost p: Partial) returns (r: Turn)
      requires Bounds() && ep < endbuf && Tracks(p)
      modifies buf, this`ep, this`lastep
      ensures Bounds() && Follows(p, Got(RegexpSyntax.Asterisk, sp), r)
      ensures Spills(old(buf[..]), Beyond(old(ep), endbuf, SecondOf(p, RegexpSyntax.Asterisk)))
    {
      if p.items != [] { LastOpcode(p.items); }
      if lastep == -1 || buf[lastep] == CBRA || buf[lastep] == CKET {
        r := Literal(Ch('*'), sp, p);
      } else {
        StarLast(p.items);
        r := More(sp);
      }
    }

    lemma {:induction false} LastOpcode(items: seq<Instr<Class>>)
      requires Bounds() && Holds(items) && items != []
      ensures var last := items[|items| - 1];
        && 0 <= lastep
        && (buf[lastep] == CBRA <==> last.Bra?)
        && (buf[lastep] == CKET <==> last.Ket?)
    {
      var n := |items| - 1;
      assert buf[..ep] == Emit(items[..n]) + ItemBytes(items[n]);
      assert buf[lastep] == buf[..ep][lastep] == ItemBytes(items[n])[0];
      FirstByte(items[n]);
    }

    method IntervalTurn(src: seq<letter>, sp: nat, ghost p: Partial) returns (r: Turn)
      requires Bounds() && ep < endbuf && sp <= |src| && p.items != [] && Tracks(p)
      modifies buf, this`ep
      ensures Bounds() && Follows(p, LexInterval(src, sp), r)
      ensures Spills(old(buf[..]), Beyond(old(ep), endbuf, SecondLimit(src, sp)))
    {
      var st := RangeLast(src, sp, p);
      r := if st.Failed? then Stopped(st.failure) else More(st.sp);
    }

    /** The characters after a backslash. */
    method Escape(src: seq<letter>, sp: nat, ghost p: Partial) returns (r: Turn)
      requires Bounds() && ep < endbuf && sp <= |src| && Tracks(p)
      modifies this`ep, this`lastep, this`nbra, this`bracketp, this`closed, buf, bracket
      ensures Bounds() && Follows(p, LexEscape(src, sp, p.items == []), r)
      ensures Spills(old(buf[..]), Beyond(old(ep), endbuf, SecondEscaped(src, sp, p)))
    {
      var c := Get(src, sp);
      if c == Ch('(') {
        r := Open(sp + 1, p);
      } else if c == Ch(')') {
        r := Close(sp + 1, p);
      } else if c == Ch('{') && lastep != -1 {
        r := IntervalTurn(src, sp + 1, p);
      } else {
        r := EscapeChar(c, sp + 1, p);
      }
    }

    /** Other escapes: a newline, a back-reference, or a character taken literally. */
    method EscapeChar(c: byte, next: nat, ghost p: Partial) returns (r: Turn)
      requires Bounds() && ep < endbuf && Tracks(p)
      modifies this`ep, this`lastep, buf
      ensures Bounds() && Follows(p, LexOther(c, next), r)
      ensures Spills(old(buf[..]), Beyond(old(ep), endbuf, SecondLexed(p, LexOther(c, next))))
    {
      if Ch('1') <= c <= Ch('9') {
        r := BackReference(c - Ch('1'), next, p);
      } else if c == NL {
        r := Stopped(Error(36));
      } else if c == 0 {
        r := Stopped(Overrun);
      } else {
        r := Literal(if c == Ch('n') then NL else c, next, p);
      }
    }

    method BracketTurn(src: seq<letter>, sp: nat, ghost p: Partial) returns (r: Turn)
      requires Bounds() && ep < endbuf && sp <= |src| && Tracks(p)
      modifies buf, this`ep, this`lastep
      ensures Bounds()
      ensures Follows(p, if HasRoom(src, sp, old(ep), endbuf) then AsElem(LexBracket(src, sp)) else Bad(Error(50)), r)
      ensures Spills(old(buf[..]), None)
    {
      var at := ep;
      ghost var b := LexBracket(src, sp);
      var st := Bracket(src, sp);
      if st.Failed? { return Stopped(st.failure); }
      lastep := at;
      HoldsAdd(p.items, Single(b.value, Once));
      r := More(st.sp);
    }

    /** The end of the pattern. */
    method Finish(ghost p: Partial, ghost sp: nat) returns (r: Turn)
      requires Bounds() && ep < endbuf && Tracks(p)
      modifies buf, this`ep
      ensures Bounds() && Follows(p, Got(Stop, sp), r)
      ensures Spills(old(buf[..]), None)
    {
      buf[ep] := CCEOF;
      ep := ep + 1;
      r := if bracketp != 0 then Stopped(Error(42)) else Ended;
    }

    /** One turn of the main loop. */
    method Piece(src: seq<letter>, sp: nat, eof: byte, sed: bool, ghost p: Partial) returns (r: Turn)
      requires Bounds() && ep < endbuf && sp <= |src| && Tracks(p)
      modifies this`ep, this`lastep, this`nbra, this`bracketp, this`closed, buf, bracket
      ensures Bounds() && Follows(p, SizedLex(src, sp, eof, sed, p.items == [], old(ep), endbuf), r)
      ensures Spills(old(buf[..]), Beyond(old(ep), endbuf, SecondAt(src, sp, eof, sed, p)))
    {
      var c := Get(src, sp);
      if c == eof {
        r := Finish(p, sp + 1);
      } else if c == NL {
        if sed { return Stopped(Error(36)); }
        r := Finish(p, sp);
      } else if c == Ch('[') {
        r := BracketTurn(src, sp + 1, p);
      } else if c == Ch('\\') {
        EscapeIs(src, sp, eof, sed, p, ep, endbuf);
        r := Escape(src, sp + 1, p);
      } else {
        CharIs(src, sp, eof, sed, p, ep, endbuf);
        r := Character(c, sp + 1, c == Ch('$') && (Get(src, sp + 1) == eof || Get(src, sp + 1) == NL), p);
      }
    }

    /** One character that is neither the end, a bracket nor a backslash. */
    method Character(c: byte, next: nat, last: bool, ghost p: Partial) returns (r: Turn)
      requires Bounds() && ep < endbuf && Tracks(p)
      modifies this`ep, this`lastep, buf
      ensures Bounds() && Follows(p, LexChar(c, next, last), r)
      ensures Spills(old(buf[..]), Beyond(old(ep), endbuf, SecondLexed(p, LexChar(c, next, last))))
    {
      if c == Ch('.') {
        r := Plain(CDOT, next, p, Single(Any, Once));
      } else if c == Ch('*') {
        r := Asterisk(next, p);
      } else if c == Ch('$') && last {
        r := Plain(CDOL, next, p, Dol);
      } else if c == 0 {
        r := Stopped(Overrun);
      } else {
        r := Literal(c, next, p);
      }
    }

    lemma {:induction false} TurnEnds(src: seq<letter>, sp: nat, eof: byte, sed: bool, p: Partial, turn: Turn)
      requires Bounds() && PartialOk(p) && sp <= |src| && !turn.More? && |Emit(p.items)| < endbuf
      requires Follows(p, SizedLex(src, sp, eof, sed, p.items == [], |Emit(p.items)|, endbuf), turn)
      ensures Delivers(SizedFrom(src, sp, eof, sed, p, endbuf),
                       if turn.Ended? then Compiled(ep) else Rejected(turn.failure), buf[..])
      ensures Spill(src, sp, eof, sed, p, endbuf) == Beyond(|Emit(p.items)|, endbuf, SecondAt(src, sp, eof, sed, p))
    {
      EmitIsEncode(p.items);
    }

    lemma {:induction false} TurnGoesOn(src: seq<letter>, sp: nat, eof: byte, sed: bool, p: Partial, turn: Turn)
      returns (q: Partial)
      requires Bounds() && PartialOk(p) && sp <= |src| && turn.More? && |Emit(p.items)| < endbuf
      requires Follows(p, SizedLex(src, sp, eof, sed, p.items == [], |Emit(p.items)|, endbuf), turn)
      ensures PartialOk(q) && Tracks(q) && sp < turn.sp <= |src| + 1
      ensures SizedFrom(src, sp, eof, sed, p, endbuf) == SizedFrom(src, turn.sp, eof, sed, q, endbuf)
      ensures var b := Beyond(|Emit(p.items)|, endbuf, SecondAt(src, sp, eof, sed, p));
        Spill(src, sp, eof, sed, p, endbuf) == if b.Some? then b else Spill(src, turn.sp, eof, sed, q, endbuf)
      ensures Beyond(|Emit(p.items)|, endbuf, SecondAt(src, sp, eof, sed, p)).Some? ==> ep == endbuf + 1
    {
      var lexed := SizedLex(src, sp, eof, sed, p.items == [], |Emit(p.items)|, endbuf);
      q := Extend(p, lexed.value).value;
      SizedStep(src, sp, eof, sed, p, endbuf, lexed.value, lexed.next);
      SpillStep(src, sp, eof, sed, p, endbuf, lexed.value, lexed.next);
    }

    /** compile */
    method Compile(src: seq<letter>, eof: byte, sed: bool) returns (r: Compilation)
      requires Bounds() && ep == 0
      modifies this, buf, bracket
      ensures Get(src, 0) == eof || Get(src, 0) == NL ==>
                && buf[..] == old(buf[..]) && circf == old(circf)
                && r == if buf[0] == 0 && !sed then Rejected(Error(41)) else Reused
      ensures Get(src, 0) != eof && Get(src, 0) != NL ==>
                && circf == IsAnchored(src)
                && Delivers(Sized(src, eof, sed, endbuf), r, buf[..])
                && Spills(old(buf[..]), Spilled(src, eof, sed, endbuf))
    {
      var c := Get(src, 0);
      if c == eof || c == NL {
        if buf[0] == 0 && !sed { return Rejected(Error(41)); }
        return Reused;
      }
      circf := c == Ch('^');
      StartOk();
      r := Loop(src, if circf then 1 else 0, eof, sed);
    }

    method Loop(src: seq<letter>, start: nat, eof: byte, sed: bool) returns (r: Compilation)
      requires Bounds() && ep == 0 && start <= |src| && PartialOk(Start)
      modifies this`ep, this`lastep, this`nbra, this`bracketp, this`closed, buf, bracket
      ensures Delivers(SizedFrom(src, start, eof, sed, Start, endbuf), r, buf[..])
      ensures Spills(old(buf[..]), Spill(src, start, eof, sed, Start, endbuf))
    {
      lastep, bracketp, closed, nbra := -1, 0, 0, 0;
      var sp := start;
      ghost var p := Start;
      ghost var sized := SizedFrom(src, start, eof, sed, Start, endbuf);
      ghost var spill := Spill(src, start, eof, sed, Start, endbuf);
      while true
        invariant Bounds() && sp <= |src| + 1 && PartialOk(p) && Tracks(p)
        invariant sized == SizedFrom(src, sp, eof, sed, p, endbuf)
        invariant if ep <= endbuf then Spills(old(buf[..]), None) && spill == Spill(src, sp, eof, sed, p, endbuf)
                  else Spills(old(buf[..]), spill)
        decreases |src| + 1 - sp
      {
        if ep >= endbuf { return Rejected(Error(50)); }
        if sp > |src| { return Rejected(Overrun); }
        var turn := Piece(src, sp, eof, sed, p);
        if !turn.More? {
          TurnEnds(src, sp, eof, sed, p, turn);
          return if turn.Ended? then Compiled(ep) else Rejected(turn.failure);
        }
        p := TurnGoesOn(src, sp, eof, sed, p, turn);
        sp := turn.sp;
      }
    }
  }
}
