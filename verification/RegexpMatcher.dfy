/**
 * advance and step, on byte code, with the matcher's global state: a cursor into the
 * subject, capture tables that are never restored, and the interval counters.
 */
module RegexpMatcher {
  import opened RegexpBits
  import opened RegexpTree
  import opened RegexpCode
  import opened RegexpSearch

  /** *lp: the subject ends in a NUL, beyond which nothing may be read. */
  function CharAt(s: seq<letter>, i: nat): byte
    requires i <= |s|
  {
    if i < |s| then s[i] else 0
  }

  /** The test on a subject byte c made by the opcode op with operands at ep. */
  predicate Test(code: seq<byte>, op: byte, ep: nat, c: byte)
    requires IsCellOp(op) && ep + Width(op) <= |code|
  {
    if op == CCHR then code[ep] == c
    else if op == CDOT then c != 0
    else if op == CXCL then IsThere(code, ep, c)
    else (c < 128 && IsThere(code, ep, c)) != (op == NCCL)
  }

  lemma {:induction false} TestIsCellHas(code: seq<byte>, op: byte, ep: nat, c: byte)
    requires IsCellOp(op) && ep + Width(op) <= |code|
    ensures Test(code, op, ep, c) == CellHas(CellAt(code, op, ep), c)
  {}

  /** ecmp: strncmp stops at a difference, at a common NUL, or after ct bytes. */
  predicate Ecmp(s: seq<letter>, bbeg: nat, lp: nat, ct: nat)
    requires bbeg <= |s| && lp <= |s|
    decreases ct
  {
    ct == 0 ||
    (CharAt(s, bbeg) == CharAt(s, lp) &&
     (CharAt(s, lp) == 0 || Ecmp(s, bbeg + 1, lp + 1, ct - 1)))
  }

  lemma {:induction false} EcmpIsCopy(s: seq<letter>, bbeg: nat, lp: nat, ct: nat)
    requires bbeg + ct <= |s| && lp <= |s|
    ensures Ecmp(s, bbeg, lp, ct) <==> lp + ct <= |s| && s[lp..lp + ct] == s[bbeg..bbeg + ct]
    decreases ct
  {
    if ct > 0 && lp < |s| {
      EcmpIsCopy(s, bbeg + 1, lp + 1, ct - 1);
      if lp + ct <= |s| {
        assert s[lp..lp + ct] == [s[lp]] + s[lp + 1..lp + ct];
        assert s[bbeg..bbeg + ct] == [s[bbeg]] + s[bbeg + 1..bbeg + ct];
      }
    }
  }

  /** The program at an offset. */
  function ProgAt(code: seq<byte>, ep: nat): Program
    requires Decode(code, ep).Some?
  {
    Decode(code, ep).value
  }

  /** Never stands for a call that does not return. */
  datatype Verdict = No | Yes | Never

  // ---- Capture tables ----

  predicate Agrees(bras: seq<int>, brae: seq<int>, caps: Caps) {
    && |bras| == |brae| == NBRA
    && (forall j :: 0 <= j < |caps.open| ==> caps.open[j].0 < NBRA && bras[caps.open[j].0] == caps.open[j].1)
    && (forall k :: k in caps.spans ==> k < NBRA && bras[k] == caps.spans[k].0 && brae[k] == caps.spans[k].1)
  }

  /** Captures lie before position i, and no group is both open and captured. */
  predicate CapsOk(caps: Caps, i: nat) {
    && (forall j :: 0 <= j < |caps.open| ==> caps.open[j].1 <= i && caps.open[j].0 !in caps.spans)
    && (forall j, l :: 0 <= j < l < |caps.open| ==> caps.open[j].0 != caps.open[l].0)
    && (forall k :: k in caps.spans ==> caps.spans[k].0 <= caps.spans[k].1 <= i)
  }

  function Keys(open: seq<(nat, nat)>): (ks: seq<nat>)
    ensures |ks| == |open| && forall j :: 0 <= j < |open| ==> ks[j] == open[j].0
  {
    seq(|open|, j requires 0 <= j < |open| => open[j].0)
  }

  /** The tables hold what prog may read when it starts at position i. */
  predicate Ready(prog: Program, s: seq<letter>, i: nat, caps: Caps, bras: seq<int>, brae: seq<int>) {
    && i <= |s|
    && Agrees(bras, brae, caps)
    && CapsOk(caps, i)
    && Scoped(prog, Keys(caps.open), caps.spans.Keys)
  }

  /** Table entries outside the given groups are the same. */
  predicate SameBut(before: seq<int>, after: seq<int>, groups: set<nat>) {
    |before| == |after| == NBRA && forall k :: 0 <= k < NBRA && k !in groups ==> after[k] == before[k]
  }

  /** What the caller of advance learns from its result, loc2 and the tables. */
  predicate Reports(out: Outcome, r: Verdict, loc2: int, bras: seq<int>, brae: seq<int>) {
    match out
    case Fail => r.No?
    case Hang => r.Never?
    case Match(end, spans) => r.Yes? && loc2 == end && Agrees(bras, brae, Caps([], spans))
  }

  /** A call on prog that may have left its own groups' entries changed does no harm. */
  lemma {:induction false} ReadyKept(prog: Program, s: seq<letter>, i: nat, caps: Caps,
                  bras: seq<int>, brae: seq<int>, bras': seq<int>, brae': seq<int>)
    requires Ready(prog, s, i, caps, bras, brae)
    requires SameBut(bras, bras', Opens(prog)) && SameBut(brae, brae', Closes(prog))
    ensures Ready(prog, s, i, caps, bras', brae')
  {
    var ks := Keys(caps.open);
    forall j | 0 <= j < |caps.open| ensures bras'[caps.open[j].0] == caps.open[j].1 {
      assert ks[j] in ks;
      ScopedFresh(prog, ks, caps.spans.Keys, ks[j]);
    }
    forall k | k in caps.spans ensures bras'[k] == caps.spans[k].0 && brae'[k] == caps.spans[k].1 {
      ScopedFresh(prog, ks, caps.spans.Keys, k);
    }
  }

  /** Another starting position that is not to the left. */
  lemma {:induction false} ReadyLater(prog: Program, s: seq<letter>, i: nat, j: nat, caps: Caps, bras: seq<int>,
                                      brae: seq<int>)
    requires Ready(prog, s, i, caps, bras, brae)
    requires i <= j <= |s|
    ensures Ready(prog, s, j, caps, bras, brae)
  {}

  lemma {:induction false} ReadyBra(prog: Program, s: seq<letter>, i: nat, caps: Caps, bras: seq<int>, brae: seq<int>)
    requires prog != [] && prog[0].Bra?
    requires Ready(prog, s, i, caps, bras, brae)
    ensures Ready(prog[1..], s, i, Open(caps, prog[0].k, i), bras[prog[0].k := i], brae)
  {
    var k := prog[0].k;
    var after := Open(caps, k, i);
    assert Keys(after.open) == [k] + Keys(caps.open);
    forall j | 0 <= j < |after.open|
      ensures bras[k := i][after.open[j].0] == after.open[j].1 && after.open[j].0 !in after.spans
    {
      if j > 0 {
        assert after.open[j] == caps.open[j - 1];
        assert Keys(caps.open)[j - 1] in Keys(caps.open);
      }
    }
  }

  lemma {:induction false} ReadyKet(prog: Program, s: seq<letter>, i: nat, caps: Caps, bras: seq<int>, brae: seq<int>)
    requires prog != [] && prog[0].Ket?
    requires Ready(prog, s, i, caps, bras, brae)
    ensures caps.open != [] && caps.open[0].0 == prog[0].k
    ensures Ready(prog[1..], s, i, Close(caps, i), bras, brae[prog[0].k := i])
  {
    assert Keys(caps.open)[1..] == Keys(caps.open[1..]);
    assert Close(caps, i).spans.Keys == caps.spans.Keys + {prog[0].k};
  }

  lemma {:induction false} FetchIsHead(code: seq<byte>, ep: nat)
    requires Decode(code, ep).Some? && code[ep] != CCEOF
    ensures var f := Fetch(code, ep);
      && f.Some?
      && Decode(code, f.value.1).Some?
      && ProgAt(code, ep) == [f.value.0] + ProgAt(code, f.value.1)
      && ProgAt(code, ep)[1..] == ProgAt(code, f.value.1)
  {}

  lemma {:induction false} OpIsRepeat(code: seq<byte>, ep: nat)
    requires Decode(code, ep).Some? && code[ep] != CCEOF
    ensures IsRepeat(ProgAt(code, ep)[0]) <==> code[ep] % 4 == STAR || code[ep] % 4 == RNGE
  {
    FetchIsHead(code, ep);
  }

  /** A starred element at an offset: its operands and what follows. */
  lemma {:induction false} StarAt(code: seq<byte>, at: nat)
    requires Decode(code, at).Some? && code[at] != CBACK + STAR && code[at] % 4 == STAR
    ensures var op, after := code[at] - STAR, at + 1 + Width(code[at] - STAR);
      && IsCellOp(op) && after <= |code| && CellWf(CellAt(code, op, at + 1))
      && Decode(code, after).Some?
      && ProgAt(code, at) == [Single(CellAt(code, op, at + 1), Star)] + ProgAt(code, after)
  {
    FetchIsHead(code, at);
  }

  /** An element with an interval. */
  lemma {:induction false} RangeAt(code: seq<byte>, at: nat)
    requires Decode(code, at).Some? && code[at] % 4 == RNGE
    ensures var op, after := code[at] - RNGE, at + 1 + Width(code[at] - RNGE);
      && IsCellOp(op) && after + 1 < |code| && CellWf(CellAt(code, op, at + 1))
      && Decode(code, after + 2).Some? && code[after] <= code[after + 1]
      && ProgAt(code, at) ==
         [Single(CellAt(code, op, at + 1), Range(code[after], code[after + 1]))] + ProgAt(code, after + 2)
  {
    FetchIsHead(code, at);
  }

  lemma {:induction false} BackStarAt(code: seq<byte>, at: nat)
    requires Decode(code, at).Some? && code[at] == CBACK + STAR
    ensures at + 1 < |code| && code[at + 1] < NBRA && Decode(code, at + 2).Some?
    ensures ProgAt(code, at) == [BackStar(code[at + 1])] + ProgAt(code, at + 2)
  {
    FetchIsHead(code, at);
  }

  /** Dropping a head instruction that sets no table entry. */
  lemma {:induction false} ReadyTail(ins: Instr<Cell>, rest: Program, s: seq<letter>, i: nat, caps: Caps,
                                     bras: seq<int>, brae: seq<int>)
    requires IsRepeat(ins)
    requires Ready([ins] + rest, s, i, caps, bras, brae)
    ensures ([ins] + rest)[1..] == rest
    ensures Ready(rest, s, i, caps, bras, brae)
    ensures Opens([ins] + rest) == Opens(rest) && Closes([ins] + rest) == Closes(rest)
    ensures ins.BackStar? ==> Captured(s, caps.spans, ins.k)
  {
    assert ([ins] + rest)[1..] == rest;
  }

  lemma {:induction false} SearchSingle(cell: Cell, rep: Rep, rest: Program, s: seq<letter>, i: nat, caps: Caps)
    ensures rep.Star? ==>
              Search([Single(cell, rep)] + rest, s, i, caps) == Try(rest, s, i, 1, 0, Most(cell, s, i, |s|), caps)
    ensures rep.Range? && rep.lo <= rep.hi ==>
              var n := Most(cell, s, i, rep.lo + MaxExtra(rep.lo, rep.hi));
              Search([Single(cell, rep)] + rest, s, i, caps) ==
              if n < rep.lo then Fail else Try(rest, s, i, 1, rep.lo, n, caps)
  {
    assert ([Single(cell, rep)] + rest)[1..] == rest;
  }

  // ---- Searching a subject ----

  const NoCaps := Caps([], map[])

  /** The cursor, n copies of width ct after from, and one copy back. */
  lemma {:induction false} OneLess(from: int, lp: int, n: int, ct: nat)
    requires lp == from + n * ct && n >= 0 && ct > 0
    ensures lp - ct == from + (n - 1) * ct && (lp - ct >= from <==> n >= 1)
  {
    if n >= 1 { assert (n - 1) * ct >= 0; }
  }

  /** The first position from p1 on, the terminator included, where the search does not fail. */
  ghost predicate IsLeftmost(prog: Program, s: seq<letter>, p1: nat, i: nat) {
    && p1 <= i <= |s| && !Search(prog, s, i, NoCaps).Fail?
    && forall j :: p1 <= j < i ==> Search(prog, s, j, NoCaps).Fail?
  }

  /** A program that begins with a character fails wherever the subject differs. */
  lemma {:induction false} FirstCharDiffers(code: seq<byte>, pc: nat, s: seq<letter>, i: nat, caps: Caps)
    requires Decode(code, pc).Some? && code[pc] == CCHR && i <= |s|
    ensures pc + 1 < |code| && code[pc + 1] != 0
    ensures CharAt(s, i) != code[pc + 1] ==> Search(ProgAt(code, pc), s, i, caps).Fail?
  {
    FetchIsHead(code, pc);
  }

  class Matcher {
    const braslist: array<int>
    const braelist: array<int>
    var loc1: nat
    var loc2: nat
    var circf: bool
    var low: int
    var size: int

    ghost predicate Valid()
      reads this
    {
      braslist != braelist && braslist.Length == NBRA && braelist.Length == NBRA
    }

    constructor ()
      ensures Valid() && fresh(braslist) && fresh(braelist)
    {
      braslist := new int[NBRA];
      braelist := new int[NBRA];
      loc1, loc2, circf, low, size := 0, 0, false, 0, 0;
    }

    /** getrnge */
    method GetRange(code: seq<byte>, at: nat)
      requires at + 1 < |code|
      modifies this`low, this`size
      ensures low == code[at] && size == MaxExtra(code[at], code[at + 1])
      ensures if code[at + 1] == 255 then size == 20000 else low + size == code[at + 1]
    {
      low := code[at];
      size := if code[at + 1] == 255 then LIMIT else code[at + 1] - low;
    }

    /** The scan of a starred element: past the longest run, and one byte more. */
    method ScanStar(code: seq<byte>, s: seq<letter>, op: byte, ep: nat, start: nat) returns (lp: nat)
      requires IsCellOp(op) && ep + Width(op) <= |code| && CellWf(CellAt(code, op, ep))
      requires start <= |s|
      ensures lp == start + Most(CellAt(code, op, ep), s, start, |s|) + 1 <= |s| + 1
    {
      ghost var cell := CellAt(code, op, ep);
      lp := start;
      var more := true;
      while more
        invariant start <= lp <= |s| + 1 && (more ==> lp <= |s|)
        invariant more ==> Most(cell, s, start, |s|) == lp - start + Most(cell, s, lp, |s| - (lp - start))
        invariant !more ==> lp == start + Most(cell, s, start, |s|) + 1
        decreases more, |s| + 1 - lp
      {
        var c := CharAt(s, lp);
        TestIsCellHas(code, op, ep, c);
        more := Test(code, op, ep, c);
        lp := lp + 1;
      }
    }

    /**
     * The scan of an interval: low repetitions are required and size more are allowed.
     * Leaves the cursor one past the longest run, like ScanStar.
     */
    method ScanRange(code: seq<byte>, s: seq<letter>, op: byte, ep: nat, start: nat)
      returns (ok: bool, curlp: nat, lp: nat)
      requires IsCellOp(op) && ep + Width(op) <= |code| && CellWf(CellAt(code, op, ep))
      requires start <= |s| && ep + Width(op) + 1 < |code|
      requires code[ep + Width(op)] <= code[ep + Width(op) + 1]
      modifies this`low, this`size
      ensures var lo, hi := code[ep + Width(op)], code[ep + Width(op) + 1];
        var n := Most(CellAt(code, op, ep), s, start, lo + MaxExtra(lo, hi));
        && ok == (n >= lo)
        && (ok ==> curlp == start + lo && lp == start + n + 1 <= |s| + 1)
    {
      GetRange(code, ep + Width(op));
      ghost var cell, lo, extra := CellAt(code, op, ep), low, size;
      ghost var limit := lo + extra;
      lp := start;
      curlp := start;
      while low != 0
        invariant 0 <= low <= lo && size == extra && start <= lp <= |s|
        invariant lp == start + (lo - low)
        invariant Most(cell, s, start, limit) == lp - start + Most(cell, s, lp, low + size)
        decreases low
      {
        low := low - 1;
        var c := CharAt(s, lp);
        TestIsCellHas(code, op, ep, c);
        lp := lp + 1;
        if !Test(code, op, ep, c) { return false, curlp, lp; }
      }
      low := low - 1;
      curlp := lp;
      lp := ScanExtra(code, s, op, ep, lp);
      ok := true;
    }

    /** The repetitions that are allowed beyond those required. */
    method ScanExtra(code: seq<byte>, s: seq<letter>, op: byte, ep: nat, start: nat) returns (lp: nat)
      requires IsCellOp(op) && ep + Width(op) <= |code| && CellWf(CellAt(code, op, ep))
      requires start <= |s| && size >= 0
      modifies this`size
      ensures lp == start + Most(CellAt(code, op, ep), s, start, old(size)) + 1 <= |s| + 1
    {
      ghost var cell := CellAt(code, op, ep);
      lp := start;
      var more := true;
      while more && size != 0
        invariant 0 <= size && start <= lp <= |s| + 1 && (more ==> lp <= |s|)
        invariant more ==> Most(cell, s, start, old(size)) == lp - start + Most(cell, s, lp, size)
        invariant !more ==> lp == start + Most(cell, s, start, old(size)) + 1
        decreases more, size
      {
        size := size - 1;
        var c := CharAt(s, lp);
        TestIsCellHas(code, op, ep, c);
        lp := lp + 1;
        more := Test(code, op, ep, c);
      }
      if more { size := size - 1; }
      if size < 0 { lp := lp + 1; }
    }

    /** A back-reference to a group. */
    method Compare(k: byte, s: seq<letter>, start: nat, ghost prog: Program, ghost caps: Caps)
      returns (ok: bool, lp: nat)
      requires Valid() && prog != [] && prog[0] == Back(k) && Ready(prog, s, start, caps, braslist[..], braelist[..])
      ensures ok == Move(prog[0], s, start, caps).Go?
      ensures ok ==> Move(prog[0], s, start, caps) == Go(lp, caps)
    {
      var bbeg := braslist[k];
      var ct := braelist[k] - bbeg;
      EcmpIsCopy(s, bbeg, start, ct);
      ok := Ecmp(s, bbeg, start, ct);
      lp := start + ct;
    }

    /** An instruction without repetition; false when advance would return 0 there. */
    method Exec(code: seq<byte>, s: seq<letter>, at: nat, start: nat, ghost caps: Caps)
      returns (ok: bool, lp: nat, ep: nat, ghost after: Caps)
      requires Valid()
      requires Decode(code, at).Some? && code[at] != CCEOF && !IsRepeat(ProgAt(code, at)[0])
      requires Ready(ProgAt(code, at), s, start, caps, braslist[..], braelist[..])
      modifies braslist, braelist
      ensures var ins := ProgAt(code, at)[0];
        && ok == Move(ins, s, start, caps).Go?
        && (ok ==> Move(ins, s, start, caps) == Go(lp, after))
        && SameBut(old(braslist[..]), braslist[..], if ins.Bra? then {ins.k} else {})
        && SameBut(old(braelist[..]), braelist[..], if ins.Ket? then {ins.k} else {})
      ensures ok ==> at < ep && Decode(code, ep).Some? && ProgAt(code, ep) == ProgAt(code, at)[1..]
      ensures ok ==> Ready(ProgAt(code, ep), s, lp, after, braslist[..], braelist[..])
    {
      FetchIsHead(code, at);
      ghost var prog := ProgAt(code, at);
      var op := code[at];
      ep, lp, after, ok := at + 1, start, caps, true;
      if op == CDOL {
        ok := CharAt(s, lp) == 0;
      } else if op == CBRA {
        braslist[code[ep]] := lp;
        ReadyBra(prog, s, start, caps, old(braslist[..]), braelist[..]);
        after := Open(caps, code[ep], lp);
        ep := ep + 1;
      } else if op == CKET {
        braelist[code[ep]] := lp;
        ReadyKet(prog, s, start, caps, braslist[..], old(braelist[..]));
        after := Close(caps, lp);
        ep := ep + 1;
      } else if op == CBACK {
        ok, lp := Compare(code[ep], s, lp, prog, caps);
        ep := ep + 1;
      } else {
        var c := CharAt(s, lp);
        TestIsCellHas(code, op, ep, c);
        ok := Test(code, op, ep, c);
        lp, ep := lp + 1, ep + Width(op);
      }
    }

    /** The scan of a starred back-reference, which must not be empty. */
    method ScanCopies(s: seq<letter>, bbeg: nat, ct: nat, start: nat) returns (lp: nat)
      requires 0 < ct && bbeg + ct <= |s| && start <= |s|
      ensures lp == start + MostCopies(s, start, s[bbeg..bbeg + ct]) * ct
      ensures lp <= |s|
    {
      ghost var w, n := s[bbeg..bbeg + ct], 0;
      lp := start;
      EcmpIsCopy(s, bbeg, lp, ct);
      while Ecmp(s, bbeg, lp, ct)
        invariant start <= lp <= |s| && lp == start + n * ct
        invariant MostCopies(s, start, w) == n + MostCopies(s, lp, w)
        invariant Ecmp(s, bbeg, lp, ct) <==> lp + ct <= |s| && s[lp..lp + ct] == w
        decreases |s| - lp
      {
        lp := lp + ct;
        EcmpIsCopy(s, bbeg, lp, ct);
        assert (n + 1) * ct == n * ct + ct;
        n := n + 1;
      }
    }

    /** The code at label star: back off one byte at a time, down to curlp. */
    method RetryStar(code: seq<byte>, s: seq<letter>, ep: nat, curlp: nat, over: nat,
                     ghost i: nat, ghost lo: nat, ghost caps: Caps) returns (r: Verdict)
      requires Valid()
      requires Decode(code, ep).Some?
      requires curlp == i + lo && curlp < over <= |s| + 1
      requires Ready(ProgAt(code, ep), s, i, caps, braslist[..], braelist[..])
      modifies this`loc2, this`low, this`size, braslist, braelist
      ensures Reports(Try(ProgAt(code, ep), s, i, 1, lo, over - 1 - i, caps), r, loc2, braslist[..], braelist[..])
      ensures SameBut(old(braslist[..]), braslist[..], Opens(ProgAt(code, ep)))
      ensures SameBut(old(braelist[..]), braelist[..], Closes(ProgAt(code, ep)))
      decreases |code| - ep, 2
    {
      ghost var rest := ProgAt(code, ep);
      var lp := over;
      while true
        invariant curlp < lp <= over
        invariant Try(rest, s, i, 1, lo, over - 1 - i, caps) == Try(rest, s, i, 1, lo, lp - 1 - i, caps)
        invariant Ready(rest, s, i, caps, braslist[..], braelist[..])
        invariant SameBut(old(braslist[..]), braslist[..], Opens(rest))
        invariant SameBut(old(braelist[..]), braelist[..], Closes(rest))
        decreases lp
      {
        lp := lp - 1;
        ghost var bras, brae := braslist[..], braelist[..];
        ReadyLater(rest, s, i, lp, caps, bras, brae);
        r := Advance(code, s, lp, ep, caps);
        if !r.No? { return; }
        ReadyKept(rest, s, i, caps, bras, brae, braslist[..], braelist[..]);
        if lp <= curlp { return; }
      }
    }

    /** Back off one copy at a time after a starred back-reference. */
    method RetryCopies(code: seq<byte>, s: seq<letter>, ep: nat, curlp: nat, ct: nat, top: nat,
                       ghost copies: nat, ghost caps: Caps) returns (r: Verdict)
      requires Valid()
      requires Decode(code, ep).Some?
      requires 0 < ct && top == curlp + copies * ct && top <= |s|
      requires Ready(ProgAt(code, ep), s, curlp, caps, braslist[..], braelist[..])
      modifies this`loc2, this`low, this`size, braslist, braelist
      ensures Reports(Try(ProgAt(code, ep), s, curlp, ct, 0, copies, caps), r, loc2, braslist[..], braelist[..])
      ensures SameBut(old(braslist[..]), braslist[..], Opens(ProgAt(code, ep)))
      ensures SameBut(old(braelist[..]), braelist[..], Closes(ProgAt(code, ep)))
      decreases |code| - ep, 2
    {
      ghost var rest, n := ProgAt(code, ep), copies;
      var lp: int := top;
      r := No;
      while lp >= curlp
        invariant lp <= top && lp == curlp + n * ct && -1 <= n && (lp >= curlp <==> n >= 0)
        invariant n < 0 ==> Try(rest, s, curlp, ct, 0, copies, caps).Fail?
        invariant n >= 0 ==>
          Try(rest, s, curlp, ct, 0, copies, caps) == Try(rest, s, curlp, ct, 0, n, caps)
        invariant r.No?
        invariant Ready(rest, s, curlp, caps, braslist[..], braelist[..])
        invariant SameBut(old(braslist[..]), braslist[..], Opens(rest))
        invariant SameBut(old(braelist[..]), braelist[..], Closes(rest))
        decreases lp
      {
        ghost var bras, brae := braslist[..], braelist[..];
        ReadyLater(rest, s, curlp, lp, caps, bras, brae);
        r := Advance(code, s, lp, ep, caps);
        if !r.No? { return; }
        ReadyKept(rest, s, curlp, caps, bras, brae, braslist[..], braelist[..]);
        OneLess(curlp, lp, n, ct);
        lp, n := lp - ct, n - 1;
      }
    }

    /** CBACK | STAR, and everything after it. */
    method RepeatCopies(code: seq<byte>, s: seq<letter>, at: nat, start: nat, ghost caps: Caps) returns (r: Verdict)
      requires Valid()
      requires Decode(code, at).Some? && code[at] == CBACK + STAR
      requires Ready(ProgAt(code, at), s, start, caps, braslist[..], braelist[..])
      modifies this`loc2, this`low, this`size, braslist, braelist
      ensures Reports(Search(ProgAt(code, at), s, start, caps), r, loc2, braslist[..], braelist[..])
      ensures SameBut(old(braslist[..]), braslist[..], Opens(ProgAt(code, at)))
      ensures SameBut(old(braelist[..]), braelist[..], Closes(ProgAt(code, at)))
      decreases |code| - at, 0
    {
      BackStarAt(code, at);
      ReadyTail(ProgAt(code, at)[0], ProgAt(code, at + 2), s, start, caps, braslist[..], braelist[..]);
      var bbeg := braslist[code[at + 1]];
      var ct := braelist[code[at + 1]] - bbeg;
      if ct == 0 { return Never; }
      var top := ScanCopies(s, bbeg, ct, start);
      r := RetryCopies(code, s, at + 2, start, ct, top, MostCopies(s, start, s[bbeg..bbeg + ct]), caps);
    }

    /** A single-character element with STAR, and everything after it. */
    method RepeatStar(code: seq<byte>, s: seq<letter>, at: nat, start: nat, ghost caps: Caps) returns (r: Verdict)
      requires Valid()
      requires Decode(code, at).Some? && code[at] % 4 == STAR && code[at] != CBACK + STAR
      requires Ready(ProgAt(code, at), s, start, caps, braslist[..], braelist[..])
      modifies this`loc2, this`low, this`size, braslist, braelist
      ensures Reports(Search(ProgAt(code, at), s, start, caps), r, loc2, braslist[..], braelist[..])
      ensures SameBut(old(braslist[..]), braslist[..], Opens(ProgAt(code, at)))
      ensures SameBut(old(braelist[..]), braelist[..], Closes(ProgAt(code, at)))
      decreases |code| - at, 0
    {
      StarAt(code, at);
      var op := code[at] - STAR;
      var ep := at + 1 + Width(op);
      ReadyTail(ProgAt(code, at)[0], ProgAt(code, ep), s, start, caps, braslist[..], braelist[..]);
      SearchSingle(CellAt(code, op, at + 1), Star, ProgAt(code, ep), s, start, caps);
      var over := ScanStar(code, s, op, at + 1, start);
      r := RetryStar(code, s, ep, start, over, start, 0, caps);
    }

    /** A single-character element with RNGE, and everything after it. */
    method RepeatRange(code: seq<byte>, s: seq<letter>, at: nat, start: nat, ghost caps: Caps) returns (r: Verdict)
      requires Valid()
      requires Decode(code, at).Some? && code[at] % 4 == RNGE
      requires Ready(ProgAt(code, at), s, start, caps, braslist[..], braelist[..])
      modifies this`loc2, this`low, this`size, braslist, braelist
      ensures Reports(Search(ProgAt(code, at), s, start, caps), r, loc2, braslist[..], braelist[..])
      ensures SameBut(old(braslist[..]), braslist[..], Opens(ProgAt(code, at)))
      ensures SameBut(old(braelist[..]), braelist[..], Closes(ProgAt(code, at)))
      decreases |code| - at, 0
    {
      RangeAt(code, at);
      var op := code[at] - RNGE;
      var ep := at + 1 + Width(op);
      ReadyTail(ProgAt(code, at)[0], ProgAt(code, ep + 2), s, start, caps, braslist[..], braelist[..]);
      SearchSingle(CellAt(code, op, at + 1), Range(code[ep], code[ep + 1]), ProgAt(code, ep + 2), s, start, caps);
      r := TryRange(code, s, op, at + 1, start, caps);
    }

    /** The scan of an interval, then what follows it. */
    method TryRange(code: seq<byte>, s: seq<letter>, op: byte, ep: nat, start: nat, ghost caps: Caps)
      returns (r: Verdict)
      requires Valid() && start <= |s|
      requires IsCellOp(op) && ep + Width(op) + 1 < |code| && CellWf(CellAt(code, op, ep))
      requires code[ep + Width(op)] <= code[ep + Width(op) + 1] && Decode(code, ep + Width(op) + 2).Some?
      requires Ready(ProgAt(code, ep + Width(op) + 2), s, start, caps, braslist[..], braelist[..])
      modifies this`loc2, this`low, this`size, braslist, braelist
      ensures var lo, hi, rest := code[ep + Width(op)], code[ep + Width(op) + 1], ProgAt(code, ep + Width(op) + 2);
        var n := Most(CellAt(code, op, ep), s, start, lo + MaxExtra(lo, hi));
        Reports(if n < lo then Fail else Try(rest, s, start, 1, lo, n, caps), r, loc2, braslist[..], braelist[..])
      ensures SameBut(old(braslist[..]), braslist[..], Opens(ProgAt(code, ep + Width(op) + 2)))
      ensures SameBut(old(braelist[..]), braelist[..], Closes(ProgAt(code, ep + Width(op) + 2)))
      decreases |code| - ep, 3
    {
      var ok, curlp, over := ScanRange(code, s, op, ep, start);
      if !ok { return No; }
      r := RetryStar(code, s, ep + Width(op) + 2, curlp, over, start, code[ep + Width(op)], caps);
    }

    /** advance: match the program at pc against the subject from start. */
    method Advance(code: seq<byte>, s: seq<letter>, start: nat, pc: nat, ghost caps: Caps) returns (r: Verdict)
      requires Valid()
      requires Decode(code, pc).Some?
      requires Ready(ProgAt(code, pc), s, start, caps, braslist[..], braelist[..])
      modifies this`loc2, this`low, this`size, braslist, braelist
      ensures Reports(Search(ProgAt(code, pc), s, start, caps), r, loc2, braslist[..], braelist[..])
      ensures SameBut(old(braslist[..]), braslist[..], Opens(ProgAt(code, pc)))
      ensures SameBut(old(braelist[..]), braelist[..], Closes(ProgAt(code, pc)))
      decreases |code| - pc, 1
    {
      ghost var prog := ProgAt(code, pc);
      var lp, ep := start, pc;
      ghost var now := caps;
      while code[ep] != CCEOF
        invariant pc <= ep && Decode(code, ep).Some?
        invariant Ready(ProgAt(code, ep), s, lp, now, braslist[..], braelist[..])
        invariant Search(prog, s, start, caps) == Search(ProgAt(code, ep), s, lp, now)
        invariant Opens(ProgAt(code, ep)) <= Opens(prog) && Closes(ProgAt(code, ep)) <= Closes(prog)
        invariant SameBut(old(braslist[..]), braslist[..], Opens(prog))
        invariant SameBut(old(braelist[..]), braelist[..], Closes(prog))
        decreases |code| - ep
      {
        OpIsRepeat(code, ep);
        if code[ep] == CBACK + STAR {
          r := RepeatCopies(code, s, ep, lp, now);
          return;
        } else if code[ep] % 4 == STAR {
          r := RepeatStar(code, s, ep, lp, now);
          return;
        } else if code[ep] % 4 == RNGE {
          r := RepeatRange(code, s, ep, lp, now);
          return;
        }
        var ok;
        ok, lp, ep, now := Exec(code, s, ep, lp, now);
        if !ok { return No; }
      }
      loc2 := lp;
      r := Yes;
    }

    /** step: search the subject from p1 for the program at pc. */
    method Step(code: seq<byte>, s: seq<letter>, p1: nat, pc: nat) returns (r: Verdict)
      requires Valid() && p1 <= |s|
      requires Decode(code, pc).Some? && Scoped(ProgAt(code, pc), [], {})
      modifies this`loc1, this`loc2, this`low, this`size, braslist, braelist
      ensures circf ==> loc1 == p1
      ensures circf || r.Yes? ==>
                Reports(Search(ProgAt(code, pc), s, loc1, NoCaps), r, loc2, braslist[..], braelist[..])
      ensures !circf && r.Yes? ==> IsLeftmost(ProgAt(code, pc), s, p1, loc1)
      ensures !circf && r.Never? ==>
                exists i :: IsLeftmost(ProgAt(code, pc), s, p1, i) && Search(ProgAt(code, pc), s, i, NoCaps).Hang?
      ensures !circf && r.No? ==> forall i :: p1 <= i <= |s| ==> Search(ProgAt(code, pc), s, i, NoCaps).Fail?
    {
      ghost var prog := ProgAt(code, pc);
      assert Keys(NoCaps.open) == [] && NoCaps.spans.Keys == {};
      if circf {
        loc1 := p1;
        r := Advance(code, s, p1, pc, NoCaps);
        return;
      }
      var p := p1;
      if code[pc] == CCHR {
        FirstCharDiffers(code, pc, s, p1, NoCaps);
        var c := code[pc + 1];
        while true
          invariant p1 <= p <= |s|
          invariant forall i :: p1 <= i < p ==> Search(prog, s, i, NoCaps).Fail?
          decreases |s| - p
        {
          FirstCharDiffers(code, pc, s, p, NoCaps);
          if CharAt(s, p) == c {
            r := Advance(code, s, p, pc, NoCaps);
            if r.Yes? { loc1 := p; }
            if !r.No? { return; }
          }
          if CharAt(s, p) == 0 { return No; }
          p := p + 1;
        }
      }
      while true
        invariant p1 <= p <= |s|
        invariant forall i :: p1 <= i < p ==> Search(prog, s, i, NoCaps).Fail?
        decreases |s| - p
      {
        r := Advance(code, s, p, pc, NoCaps);
        if r.Yes? { loc1 := p; }
        if !r.No? { return; }
        if CharAt(s, p) == 0 { return No; }
        p := p + 1;
      }
    }
  }
}
