/**
 * What compile makes of a text when its buffer is limited: the error it reports first, and
 * the byte that it may write just beyond the buffer.
 */
module RegexpSized {
  import opened RegexpBits
  import opened RegexpTree
  import opened RegexpCode
  import opened RegexpMeaning
  import opened RegexpSyntax
  import opened RegexpGrammar
  import opened RegexpEmit
  import opened Options

  // ---- Bracket expressions ----

  /** A byte above 127 is met before the members end, or fail to. */
  predicate MeetsWide(src: seq<letter>, i: nat, last: byte)
    decreases |src| + 1 - i, 0
  {
    i <= |src| &&
    var c, d := Get(src, i), if i < |src| then Get(src, i + 1) else 0;
    c != 0 && c != NL &&
    if c == Ch('-') && last != 0 then d != 0 && d != Ch(']') && (d >= 128 || MeetsMore(src, i + 2, d))
    else c >= 128 || MeetsMore(src, i + 1, c)
  }

  predicate MeetsMore(src: seq<letter>, i: nat, last: byte)
    requires 0 < i <= |src|
    decreases |src| + 1 - i, 1
  {
    Get(src, i) != Ch(']') && MeetsWide(src, i, last)
  }

  lemma {:induction false} MeetsIsWide(src: seq<letter>, i: nat, last: byte)
    requires last < 128 && LexSpans(src, i, last).Got?
    ensures MeetsWide(src, i, last) <==> IsWide(LexSpans(src, i, last).value)
    decreases |src| + 1 - i, 0
  {
    var c := Get(src, i);
    if c == Ch('-') && last != 0 {
      if Get(src, i + 1) == Ch(']') {
        assert !IsWide([Span(c, c)]);
      } else {
        MoreIsWide(src, i + 2, Span(last, Get(src, i + 1)));
      }
    } else {
      MoreIsWide(src, i + 1, Span(c, c));
    }
  }

  lemma {:induction false} MoreIsWide(src: seq<letter>, i: nat, span: Span)
    requires 0 < i <= |src| && LexMore(src, i, span).Got? && (span.lo < 128 || span.lo == span.hi)
    ensures span.hi >= 128 || MeetsMore(src, i, span.hi) <==> IsWide(LexMore(src, i, span).value)
    decreases |src| + 1 - i, 1
  {
    var spans := LexMore(src, i, span).value;
    assert spans[0] == span;
    if span.hi < 128 && Get(src, i) != Ch(']') {
      MeetsIsWide(src, i, span.hi);
      WideTail(span, LexSpans(src, i, span.hi).value);
    }
  }

  lemma {:induction false} WideTail(span: Span, rest: seq<Span>)
    requires span.lo < 128 && span.hi < 128
    ensures IsWide([span] + rest) <==> IsWide(rest)
  {
    var all := [span] + rest;
    if IsWide(rest) {
      var j :| 0 <= j < |rest| && (rest[j].lo >= 128 || rest[j].hi >= 128);
      assert all[j + 1] == rest[j];
    }
    if IsWide(all) {
      var j :| 0 <= j < |all| && (all[j].lo >= 128 || all[j].hi >= 128);
      assert all[j] == rest[j - 1];
    }
  }

  /** Where the members begin, after the opening bracket and a circumflex. */
  function MembersAt(src: seq<letter>, i: nat): nat
    requires i <= |src|
  {
    if Get(src, i) == Ch('^') then i + 1 else i
  }

  /** The two tests made for a bracket expression with text at i and code at ep. */
  predicate HasRoom(src: seq<letter>, i: nat, ep: nat, size: nat)
    requires i <= |src|
  {
    ep + 17 < size && (MeetsWide(src, MembersAt(src, i), 0) ==> ep + 33 < size)
  }

  lemma {:induction false} RoomIsSize(src: seq<letter>, i: nat, ep: nat, size: nat)
    requires i <= |src| && LexBracket(src, i).Got?
    ensures HasRoom(src, i, ep, size) <==> ep + |ItemBytes(Single(LexBracket(src, i).value, Once))| < size
  {
    MeetsIsWide(src, MembersAt(src, i), 0);
    var cls := LexBracket(src, i).value;
    ItemBytesSingle(cls, Once);
    LowerExact(cls, 0);
    CellBytesWidth(Lower(cls));
  }

  // ---- The first error ----

  /** The piece at i, unless it is a bracket expression without room for its table. */
  function SizedLex(src: seq<letter>, i: nat, eof: byte, sed: bool, first: bool, ep: nat, size: nat): (r: Lexed<Piece>)
    requires i <= |src|
    ensures r.Got? ==> r == LexPiece(src, i, eof, sed, first)
  {
    if Get(src, i) == Ch('[') && eof != Ch('[') && !HasRoom(src, i + 1, ep, size) then Bad(Error(50))
    else LexPiece(src, i, eof, sed, first)
  }

  /** As ParseFrom, with size bytes for the code. */
  function SizedFrom(src: seq<letter>, i: nat, eof: byte, sed: bool, p: Partial, size: nat): Built<seq<Instr<Class>>>
    requires PartialOk(p)
    decreases |src| + 1 - i
  {
    if |Emit(p.items)| >= size then Wrong(Error(50))
    else if i > |src| then Wrong(Overrun)
    else
      match SizedLex(src, i, eof, sed, p.items == [], |Emit(p.items)|, size)
      case Bad(f) => Wrong(f)
      case Got(piece, next) =>
        if piece.Stop? then
          if p.stack != [] then Wrong(Error(42)) else Good(p.items)
        else
          match Extend(p, piece)
          case Wrong(f) => Wrong(f)
          case Good(q) =>
            LexIntervalOrdered(src, i, eof, sed, p.items == []);
            ExtendOk(p, piece);
            SizedFrom(src, next, eof, sed, q, size)
  }

  /** A non-empty pattern. */
  function Sized(src: seq<letter>, eof: byte, sed: bool, size: nat): Built<seq<Instr<Class>>> {
    StartOk();
    SizedFrom(src, if IsAnchored(src) then 1 else 0, eof, sed, Start, size)
  }

  /** Code that fills the buffer before the pattern ends cannot fit in the end. */
  lemma {:induction false} FullMeansTooLong(src: seq<letter>, i: nat, eof: byte, sed: bool, p: Partial, size: nat)
    requires PartialOk(p) && |Emit(p.items)| >= size
    ensures var parsed := ParseFrom(src, i, eof, sed, p);
      parsed.Good? ==> ItemsOk(parsed.value) && |Emit(parsed.value)| >= size
  {
    if ParseFrom(src, i, eof, sed, p).Good? { ParseGrows(src, i, eof, sed, p); }
  }

  /** How the limit changes the result of parsing. */
  ghost predicate Limits(parsed: Built<seq<Instr<Class>>>, sized: Built<seq<Instr<Class>>>, size: nat) {
    match parsed
    case Wrong(f) => sized == parsed || sized == Wrong(Error(50))
    case Good(items) => ItemsOk(items) && sized == if |Emit(items)| < size then parsed else Wrong(Error(50))
  }

  /** A piece for which there is room is the next step of both. */
  lemma {:induction false} SizedStep(src: seq<letter>, i: nat, eof: byte, sed: bool, p: Partial, size: nat,
                                     piece: Piece, next: nat)
    requires PartialOk(p) && i <= |src| && |Emit(p.items)| < size && !piece.Stop? && Extend(p, piece).Good?
    requires SizedLex(src, i, eof, sed, p.items == [], |Emit(p.items)|, size) == Got(piece, next)
    ensures i < next && PartialOk(Extend(p, piece).value)
    ensures ParseFrom(src, i, eof, sed, p) == ParseFrom(src, next, eof, sed, Extend(p, piece).value)
    ensures SizedFrom(src, i, eof, sed, p, size) == SizedFrom(src, next, eof, sed, Extend(p, piece).value, size)
  {
    LexIntervalOrdered(src, i, eof, sed, p.items == []);
    ExtendOk(p, piece);
  }

  /** A bracket expression for which there is no room cannot fit. */
  lemma {:induction false} NoRoom(src: seq<letter>, i: nat, eof: byte, sed: bool, p: Partial, size: nat)
    requires PartialOk(p) && i < |src| && src[i] == Ch('[') && eof != Ch('[')
    requires !HasRoom(src, i + 1, |Emit(p.items)|, size)
    ensures Limits(ParseFrom(src, i, eof, sed, p), Wrong(Error(50)), size)
  {
    var b := LexBracket(src, i + 1);
    if b.Got? {
      var q := Add(p, Single(b.value, Once));
      RoomIsSize(src, i + 1, |Emit(p.items)|, size);
      AddOk(p, Single(b.value, Once));
      EmitAdd(p.items, Single(b.value, Once));
      FullMeansTooLong(src, b.next, eof, sed, q, size);
      BracketStep(src, i, eof, sed, p);
    }
  }

  lemma {:induction false} BracketStep(src: seq<letter>, i: nat, eof: byte, sed: bool, p: Partial)
    requires i < |src| && src[i] == Ch('[') && eof != Ch('[') && LexBracket(src, i + 1).Got?
    ensures var b := LexBracket(src, i + 1);
      ParseFrom(src, i, eof, sed, p) == ParseFrom(src, b.next, eof, sed, Add(p, Single(b.value, Once)))
  {}

  /** An accepted text compiles exactly if its code fits; another is refused all the same. */
  lemma {:induction false} SizedIsParse(src: seq<letter>, i: nat, eof: byte, sed: bool, p: Partial, size: nat)
    requires PartialOk(p)
    ensures Limits(ParseFrom(src, i, eof, sed, p), SizedFrom(src, i, eof, sed, p, size), size)
    decreases |src| + 1 - i
  {
    if |Emit(p.items)| >= size {
      FullMeansTooLong(src, i, eof, sed, p, size);
    } else if i <= |src| {
      if Get(src, i) == Ch('[') && eof != Ch('[') && !HasRoom(src, i + 1, |Emit(p.items)|, size) {
        NoRoom(src, i, eof, sed, p, size);
      } else {
        var lexed := SizedLex(src, i, eof, sed, p.items == [], |Emit(p.items)|, size);
        if lexed.Got? && !lexed.value.Stop? && Extend(p, lexed.value).Good? {
          SizedStep(src, i, eof, sed, p, size, lexed.value, lexed.next);
          SizedIsParse(src, lexed.next, eof, sed, Extend(p, lexed.value).value, size);
        }
      }
    }
  }

  // ---- The byte beyond the buffer ----

  /** The second byte that a piece writes, if it writes two. */
  function SecondOf(p: Partial, piece: Piece): Option<int> {
    match piece
    case Elem(Lit(c)) => Some(c)
    case OpenGroup => if p.nbra < NBRA then Some(p.nbra) else None
    case CloseGroup => if p.stack != [] then Some(p.stack[0]) else None
    case Digit(k) => if k < p.closed then Some(k) else None
    case Asterisk => if IsLiteralStar(p) then Some(Ch('*')) else None
    case Interval(_, hi) => if p.items != [] then Some(hi) else None
    case _ => None
  }

  /** The second limit of an interval, which is written even if the interval then proves wrong. */
  function SecondLimit(src: seq<letter>, i: nat): Option<int>
    requires i <= |src|
  {
    var n := LexNumber(src, i, 0);
    if n.Bad? || n.value >= 255 then None
    else if src[n.next] != Ch(',') then (if Get(src, n.next + 1) == Ch('}') then Some(n.value) else None)
    else if Get(src, n.next + 1) == Ch('\\') then Some(255)
    else
      var m := LexNumber(src, n.next + 1, 0);
      if m.Bad? || m.value >= 255 then None else Some(m.value)
  }

  /** An interval begins at i. */
  predicate IsIntervalAt(src: seq<letter>, i: nat, eof: byte, p: Partial)
    requires i <= |src|
  {
    i < |src| && src[i] == Ch('\\') && eof != Ch('\\') && p.items != [] && Get(src, i + 1) == Ch('{')
  }

  /** The second of two bytes written for the text at i. */
  function SecondAt(src: seq<letter>, i: nat, eof: byte, sed: bool, p: Partial): Option<int>
    requires i <= |src|
  {
    if IsIntervalAt(src, i, eof, p) then SecondLimit(src, i + 2)
    else
      match LexPiece(src, i, eof, sed, p.items == [])
      case Got(piece, _) => SecondOf(p, piece)
      case Bad(_) => None
  }

  /**
   * The byte written at offset size.  The main loop tests the space once for each piece, so a
   * piece that begins at the last free byte and writes two goes beyond it.
   */
  function Spill(src: seq<letter>, i: nat, eof: byte, sed: bool, p: Partial, size: nat): Option<int>
    requires PartialOk(p)
    decreases |src| + 1 - i
  {
    if |Emit(p.items)| >= size || i > |src| then None
    else if |Emit(p.items)| + 1 == size && SecondAt(src, i, eof, sed, p).Some? then SecondAt(src, i, eof, sed, p)
    else
      match SizedLex(src, i, eof, sed, p.items == [], |Emit(p.items)|, size)
      case Bad(_) => None
      case Got(piece, next) =>
        if piece.Stop? || Extend(p, piece).Wrong? then None
        else
          LexIntervalOrdered(src, i, eof, sed, p.items == []);
          ExtendOk(p, piece);
          Spill(src, next, eof, sed, Extend(p, piece).value, size)
  }

  /** The byte beyond the buffer for a non-empty pattern. */
  function Spilled(src: seq<letter>, eof: byte, sed: bool, size: nat): Option<int> {
    StartOk();
    Spill(src, if IsAnchored(src) then 1 else 0, eof, sed, Start, size)
  }

  lemma {:induction false} SecondIsLimit(src: seq<letter>, i: nat)
    requires i <= |src| && LexInterval(src, i).Got?
    ensures SecondLimit(src, i) == Some(LexInterval(src, i).value.hi)
  {}

  lemma {:induction false} ElemSize(cls: Class)
    ensures var b := ItemBytes(Single(cls, Once)); (|b| == 2 <==> cls.Lit?) && (cls.Lit? ==> b[1] == cls.c)
  {
    ItemBytesSingle(cls, Once);
    if cls.Bracket? {
      LowerExact(cls, 0);
      CellBytesWidth(Lower(cls));
    }
  }

  lemma {:induction false} SecondAdded(p: Partial, piece: Piece)
    requires Extend(p, piece).Good? && Added(p, piece).Some? && ItemOk(Added(p, piece).value)
    ensures var b, second := ItemBytes(Added(p, piece).value), SecondOf(p, piece);
      (second.Some? <==> |b| == 2) && (second.Some? ==> second.value == b[1])
  {
    var ins := Added(p, piece).value;
    if ins.Single? { ElemSize(ins.cls); }
  }

  /** SecondOf is the second byte of the two added, and pieces without one add another number. */
  lemma {:induction false} SecondAdds(p: Partial, piece: Piece)
    requires PartialOk(p) && Extend(p, piece).Good? && PartialOk(Extend(p, piece).value)
    requires piece.Interval? ==> piece.lo <= piece.hi
    ensures var second, was, now := SecondOf(p, piece), |Emit(p.items)|, Emit(Extend(p, piece).value.items);
      (second.Some? <==> |now| == was + 2) && (second.Some? ==> now[was + 1] == second.value)
  {
    ExtendEmit(p, piece);
    if Added(p, piece).Some? { SecondAdded(p, piece); }
  }

  /** After a byte beyond the buffer there is always an error: code that is accepted fits. */
  lemma {:induction false} SpillFails(src: seq<letter>, i: nat, eof: byte, sed: bool, p: Partial, size: nat)
    requires PartialOk(p) && Spill(src, i, eof, sed, p, size).Some?
    ensures SizedFrom(src, i, eof, sed, p, size).Wrong?
    decreases |src| + 1 - i
  {
    var lexed := SizedLex(src, i, eof, sed, p.items == [], |Emit(p.items)|, size);
    if lexed.Got? && !lexed.value.Stop? && Extend(p, lexed.value).Good? {
      SizedStep(src, i, eof, sed, p, size, lexed.value, lexed.next);
      if |Emit(p.items)| + 1 == size && SecondAt(src, i, eof, sed, p).Some? {
        SecondIs(src, i, eof, sed, p, lexed.value);
        SecondAdds(p, lexed.value);
      } else {
        SpillFails(src, lexed.next, eof, sed, Extend(p, lexed.value).value, size);
      }
    }
  }

  /** For a piece that is read, the second byte is that of the piece. */
  lemma {:induction false} SecondIs(src: seq<letter>, i: nat, eof: byte, sed: bool, p: Partial, piece: Piece)
    requires i <= |src|
    requires LexPiece(src, i, eof, sed, p.items == []).Got? && LexPiece(src, i, eof, sed, p.items == []).value == piece
    ensures SecondAt(src, i, eof, sed, p) == SecondOf(p, piece)
    ensures piece.Interval? ==> piece.lo <= piece.hi
  {
    if IsIntervalAt(src, i, eof, p) { SecondIsLimit(src, i + 2); }
  }

  /** The second of two bytes at ep, if it falls at size. */
  function Beyond(ep: nat, size: nat, second: Option<int>): Option<int> {
    if ep + 1 == size then second else None
  }

  /** One step of Spill: the byte is written for this piece, or later. */
  lemma {:induction false} SpillStep(src: seq<letter>, i: nat, eof: byte, sed: bool, p: Partial, size: nat,
                                     piece: Piece, next: nat)
    requires PartialOk(p) && i <= |src| && |Emit(p.items)| < size && !piece.Stop? && Extend(p, piece).Good?
    requires SizedLex(src, i, eof, sed, p.items == [], |Emit(p.items)|, size) == Got(piece, next)
    requires i < next && PartialOk(Extend(p, piece).value)
    ensures var b, q := Beyond(|Emit(p.items)|, size, SecondAt(src, i, eof, sed, p)), Extend(p, piece).value;
      && Spill(src, i, eof, sed, p, size) == (if b.Some? then b else Spill(src, next, eof, sed, q, size))
      && (b.Some? ==> |Emit(q.items)| == size + 1)
  {
    SecondIs(src, i, eof, sed, p, piece);
    SecondAdds(p, piece);
  }

  /** A letter when one byte is free: it is written beyond the buffer, and then there is no space. */
  lemma {:induction false} LetterSpills(src: seq<letter>, i: nat, eof: byte, sed: bool, p: Partial, size: nat,
                                        c: letter)
    requires PartialOk(p) && i <= |src| && |Emit(p.items)| + 1 == size
    requires LexPiece(src, i, eof, sed, p.items == []) == Got(Elem(Lit(c)), i + 1)
    requires SizedLex(src, i, eof, sed, p.items == [], |Emit(p.items)|, size) == Got(Elem(Lit(c)), i + 1)
    requires !IsIntervalAt(src, i, eof, p)
    ensures Spill(src, i, eof, sed, p, size) == Some(c)
    ensures SizedFrom(src, i, eof, sed, p, size) == Wrong(Error(50))
  {
    var q := Extend(p, Elem(Lit(c))).value;
    ExtendOk(p, Elem(Lit(c)));
    SecondAdds(p, Elem(Lit(c)));
    assert |Emit(q.items)| >= size;
  }

  /** The pattern a and a buffer of one byte. */
  lemma {:induction false} SpillExample(sed: bool)
    ensures Spilled([Ch('a')], 0, sed, 1) == Some(Ch('a'))
    ensures Sized([Ch('a')], 0, sed, 1) == Wrong(Error(50))
  {
    StartOk();
    var src: seq<letter> := [Ch('a')];
    assert Emit(Start.items) == [];
    LetterSpills(src, 0, 0, sed, Start, 1, Ch('a'));
  }
}
