/**
 * The pattern language as a grammar: which stretch of text writes which piece, whatever
 * way it is written.  The compiler's reader is proved to follow it, text by text.
 */
module RegexpNotation {
  import opened RegexpBits
  import opened RegexpTree
  import opened RegexpCode
  import opened RegexpSyntax

  type text = seq<letter>

  // ---- Numbers ----

  predicate AreDigits(ds: text) {
    ds != [] && forall k :: 0 <= k < |ds| ==> Ch('0') <= ds[k] <= Ch('9')
  }

  /** Decimal notation: the last digit counts once, the others ten times as much. */
  function Number(ds: text): nat
    requires AreDigits(ds)
  {
    var last := ds[|ds| - 1] - Ch('0');
    if |ds| == 1 then last else 10 * Number(ds[..|ds| - 1]) + last
  }

  /** The digits from i to j are a number below 255. */
  predicate IsLimit(src: text, i: int, j: int, n: nat) {
    0 <= i < j < |src| && AreDigits(src[i..j]) && n == Number(src[i..j]) < 255
  }

  predicate ClosesAt(src: text, i: int) {
    0 <= i && i + 1 < |src| && src[i] == Ch('\\') && src[i + 1] == Ch('}')
  }

  predicate IsOne(src: text, i: nat, next: nat, lo: nat, hi: nat) {
    IsLimit(src, i, next - 2, lo) && hi == lo && ClosesAt(src, next - 2)
  }

  predicate IsOpen(src: text, i: nat, next: nat, lo: nat, hi: nat) {
    IsLimit(src, i, next - 3, lo) && src[next - 3] == Ch(',') && hi == 255 && ClosesAt(src, next - 2)
  }

  predicate AreTwo(src: text, i: nat, j: int, next: nat, lo: nat, hi: nat) {
    && IsLimit(src, i, j, lo) && src[j] == Ch(',') && IsLimit(src, j + 1, next - 2, hi)
    && lo <= hi && ClosesAt(src, next - 2)
  }

  /** After the opening brace: one number; one and a comma; or two, in order. */
  ghost predicate IsInterval(src: text, i: nat, next: nat, lo: nat, hi: nat) {
    IsOne(src, i, next, lo, hi) || IsOpen(src, i, next, lo, hi) || exists j :: AreTwo(src, i, j, next, lo, hi)
  }

  // ---- Bracket expressions ----

  /** A member: itself; or a hyphen and an end, for the range from the last member. */
  predicate IsMember(src: text, i: nat, n: nat, close: nat, last: byte, sp: Span) {
    i + n <= close < |src| &&
    if n == 1 then
      && sp == Span(src[i], src[i]) && src[i] != NL
      && (last == 0 || (src[i] != Ch(']') && (src[i] == Ch('-') ==> i + 1 == close)))
    else
      n == 2 && last != 0 && src[i] == Ch('-') && src[i + 1] != Ch(']') && sp == Span(last, src[i + 1])
  }

  /** The members between i and the closing bracket, of which there is at least one. */
  ghost predicate AreMembers(src: text, i: nat, close: nat, last: byte, spans: seq<Span>)
    decreases |spans|
  {
    && spans != [] && close < |src| && src[close] == Ch(']')
    && exists n: nat :: IsMember(src, i, n, close, last, spans[0]) &&
         if i + n == close then |spans| == 1 else AreMembers(src, i + n, close, spans[0].hi, spans[1..])
  }

  ghost predicate IsBracket(src: text, i: nat, next: nat, neg: bool, spans: seq<Span>) {
    && i < next - 1 && next <= |src| && (neg <==> src[i] == Ch('^'))
    && AreMembers(src, if neg then i + 1 else i, next - 1, 0, spans)
  }

  // ---- Pieces ----

  /** A letter: as itself, after a backslash if that has no other meaning, or as n for a newline. */
  predicate IsLetter(src: text, i: nat, next: nat, eof: byte, first: bool, c: letter)
    requires i < next <= |src|
  {
    var after := Get(src, next);
    || (&& next == i + 1 && src[i] == c && c !in {NL, Ch('*'), Ch('.'), Ch('['), Ch('\\')}
        && (c == Ch('$') ==> after != eof && after != NL))
    || (&& next == i + 2 && src[i] == Ch('\\') && src[i + 1] == c && c !in {NL, Ch('('), Ch(')'), Ch('n')}
        && !(Ch('1') <= c <= Ch('9')) && (c == Ch('{') ==> first))
    || (next == i + 2 && src[i] == Ch('\\') && src[i + 1] == Ch('n') && c == NL)
  }

  predicate IsEscaped(src: text, i: nat, next: nat, c: int) {
    next == i + 2 <= |src| && src[i] == Ch('\\') && src[i + 1] == c
  }

  /** The text from i to next writes the piece; first says that no item precedes it. */
  ghost predicate Writes(src: text, i: nat, next: nat, eof: byte, first: bool, piece: Piece) {
    && i < next <= |src| && src[i] != eof
    && match piece
       case Elem(Any) => next == i + 1 && src[i] == Ch('.')
       case Elem(Lit(c)) => IsLetter(src, i, next, eof, first, c)
       case Elem(Bracket(neg, spans)) => src[i] == Ch('[') && IsBracket(src, i + 1, next, neg, spans)
       case Dollar => next == i + 1 && src[i] == Ch('$') && (Get(src, next) == eof || Get(src, next) == NL)
       case OpenGroup => IsEscaped(src, i, next, Ch('('))
       case CloseGroup => IsEscaped(src, i, next, Ch(')'))
       case Digit(k) => k < 9 && IsEscaped(src, i, next, Ch('1') + k)
       case Asterisk => next == i + 1 && src[i] == Ch('*')
       case Interval(lo, hi) =>
         !first && i + 1 < next && IsEscaped(src, i, i + 2, Ch('{')) && IsInterval(src, i + 2, next, lo, hi)
       case Stop => false
  }

  // ---- Reading numbers ----

  lemma {:induction false} NumberReads(src: text, i: nat, j: nat, k: nat)
    requires i < k <= j < |src| && AreDigits(src[i..j]) && (src[j] == Ch('\\') || src[j] == Ch(','))
    ensures AreDigits(src[i..k])
    ensures k < j ==> LexNumber(src, k, Number(src[i..k])) == Got(Number(src[i..j]), j)
    decreases j - k
  {
    assert forall m :: 0 <= m < k - i ==> src[i..k][m] == src[i..j][m];
    if k < j {
      assert src[k] == src[i..j][k - i];
      NumberReads(src, i, j, k + 1);
      assert src[i..k + 1][..k - i] == src[i..k];
      if k + 1 < j { assert src[k + 1] == src[i..j][k + 1 - i]; }
    }
  }

  lemma {:induction false} DigitsRead(src: text, i: nat, j: nat)
    requires i < j < |src| && AreDigits(src[i..j]) && (src[j] == Ch('\\') || src[j] == Ch(','))
    ensures LexNumber(src, i, 0) == Got(Number(src[i..j]), j)
  {
    assert src[i] == src[i..j][0];
    NumberReads(src, i, j, i + 1);
    assert src[i..i + 1] == [src[i]];
    if i + 1 < j { assert src[i + 1] == src[i..j][1]; }
  }

  /** A number is read exactly where one stands, before a backslash or comma. */
  lemma {:induction false} ReadIsDigits(src: text, i: nat, acc: nat)
    requires i <= |src|
    ensures var r := LexNumber(src, i, acc);
      if r.Got? then AreDigits(src[i..r.next]) else r == Bad(Error(16))
    decreases |src| - i
  {
    var r := LexNumber(src, i, acc);
    var c := Get(src, i);
    if Ch('0') <= c <= Ch('9') {
      if r != Got(10 * acc + c - Ch('0'), i + 1) {
        ReadIsDigits(src, i + 1, 10 * acc + c - Ch('0'));
        if r.Got? { assert src[i..r.next] == [src[i]] + src[i + 1..r.next]; }
      }
    }
  }

  lemma {:induction false} LimitReads(src: text, i: nat, j: nat, n: nat)
    requires IsLimit(src, i, j, n) && (src[j] == Ch('\\') || src[j] == Ch(','))
    ensures LexNumber(src, i, 0) == Got(n, j) && src[i] != Ch('\\')
  {
    DigitsRead(src, i, j);
    assert src[i] == src[i..j][0];
  }

  lemma {:induction false} OneReads(src: text, i: nat, next: nat, lo: nat, hi: nat)
    requires i <= |src| && IsOne(src, i, next, lo, hi)
    ensures LexInterval(src, i) == Got(Interval(lo, hi), next)
  {
    LimitReads(src, i, next - 2, lo);
  }

  lemma {:induction false} OpenReads(src: text, i: nat, next: nat, lo: nat, hi: nat)
    requires i <= |src| && IsOpen(src, i, next, lo, hi)
    ensures LexInterval(src, i) == Got(Interval(lo, hi), next)
  {
    LimitReads(src, i, next - 3, lo);
  }

  lemma {:induction false} TwoRead(src: text, i: nat, j: nat, next: nat, lo: nat, hi: nat)
    requires i <= |src| && AreTwo(src, i, j, next, lo, hi)
    ensures LexInterval(src, i) == Got(Interval(lo, hi), next)
  {
    LimitReads(src, i, j, lo);
    LimitReads(src, j + 1, next - 2, hi);
    UpperReads(src, j + 1, next - 2, lo, hi);
  }

  lemma {:induction false} UpperReads(src: text, i: nat, j: nat, lo: byte, hi: nat)
    requires i < |src| && src[i] != Ch('\\') && LexNumber(src, i, 0) == Got(hi, j)
    requires lo <= hi < 255 && ClosesAt(src, j)
    ensures LexUpper(src, i, lo) == Got(Interval(lo, hi), j + 2)
  {}

  lemma {:induction false} IntervalReads(src: text, i: nat, next: nat, lo: nat, hi: nat)
    requires i <= |src| && IsInterval(src, i, next, lo, hi)
    ensures lo < 256 && hi < 256 && LexInterval(src, i) == Got(Interval(lo, hi), next)
  {
    if IsOne(src, i, next, lo, hi) {
      OneReads(src, i, next, lo, hi);
    } else if IsOpen(src, i, next, lo, hi) {
      OpenReads(src, i, next, lo, hi);
    } else {
      var j :| AreTwo(src, i, j, next, lo, hi);
      TwoRead(src, i, j, next, lo, hi);
    }
  }

  /** What is read as a number is its value. */
  lemma {:induction false} ReadIsLimit(src: text, i: nat)
    requires i <= |src| && LexNumber(src, i, 0).Got? && LexNumber(src, i, 0).value < 255
    ensures var r := LexNumber(src, i, 0); IsLimit(src, i, r.next, r.value)
  {
    ReadIsDigits(src, i, 0);
    DigitsRead(src, i, LexNumber(src, i, 0).next);
  }

  /** How an interval that is accepted was read. */
  lemma {:induction false} IntervalShape(src: text, i: nat, n: Lexed<nat>, m: Lexed<nat>, r: Lexed<Piece>)
    requires i <= |src| && n == LexNumber(src, i, 0) && r == LexInterval(src, i) && r.Got?
    requires n.Got? && n.next < |src| ==> m == LexNumber(src, n.next + 1, 0)
    ensures n.Got? && n.value == r.value.lo < 255 && ClosesAt(src, r.next - 2)
    ensures || (r.value.hi == r.value.lo && n.next == r.next - 2)
            || (src[n.next] == Ch(',') && r.value.hi == 255 && n.next == r.next - 3)
            || (src[n.next] == Ch(',') && m.Got? && m.value == r.value.hi < 255 && m.next == r.next - 2)
  {}

  lemma {:induction false} ReadIsInterval(src: text, i: nat)
    requires i <= |src| && LexInterval(src, i).Got?
    ensures var r := LexInterval(src, i); IsInterval(src, i, r.next, r.value.lo, r.value.hi)
  {
    var r, n := LexInterval(src, i), LexNumber(src, i, 0);
    var m := if n.Got? && n.next < |src| then LexNumber(src, n.next + 1, 0) else n;
    IntervalShape(src, i, n, m, r);
    ReadIsLimit(src, i);
    if r.value.hi == r.value.lo && n.next == r.next - 2 {
      assert IsOne(src, i, r.next, r.value.lo, r.value.hi);
    } else if r.value.hi == 255 && n.next == r.next - 3 {
      assert IsOpen(src, i, r.next, r.value.lo, r.value.hi);
    } else {
      ReadIsLimit(src, n.next + 1);
      assert AreTwo(src, i, n.next, r.next, r.value.lo, r.value.hi);
    }
  }

  // ---- Reading brackets ----

  /** One member is read, and reading goes on after it. */
  lemma {:induction false} MemberReads(src: text, i: nat, n: nat, close: nat, last: byte, sp: Span)
    requires IsMember(src, i, n, close, last, sp) && src[close] == Ch(']')
    ensures i + n < close ==> LexSpans(src, i, last) == LexMore(src, i + n, sp)
    ensures i + n == close ==> LexSpans(src, i, last) == Got([sp], close + 1)
  {}

  lemma {:induction false} MembersRead(src: text, i: nat, close: nat, last: byte, spans: seq<Span>)
    requires AreMembers(src, i, close, last, spans)
    ensures LexSpans(src, i, last) == Got(spans, close + 1)
    decreases |spans|
  {
    var n: nat :| IsMember(src, i, n, close, last, spans[0]) &&
      if i + n == close then |spans| == 1 else AreMembers(src, i + n, close, spans[0].hi, spans[1..]);
    MemberReads(src, i, n, close, last, spans[0]);
    if i + n != close {
      MembersRead(src, i + n, close, spans[0].hi, spans[1..]);
      MemberStarts(src, i + n, close, spans[0].hi, spans[1..]);
      assert spans == [spans[0]] + spans[1..];
    } else {
      assert spans == [spans[0]];
    }
  }

  /** Only the first member of a bracket expression begins with a bracket. */
  lemma {:induction false} MemberStarts(src: text, i: nat, close: nat, last: letter, spans: seq<Span>)
    requires AreMembers(src, i, close, last, spans)
    ensures i < close < |src| && src[i] != Ch(']')
  {}

  lemma {:induction false} SpansWrite(src: text, i: nat, last: byte)
    requires LexSpans(src, i, last).Got? && (last != 0 ==> Get(src, i) != Ch(']'))
    ensures var r := LexSpans(src, i, last); AreMembers(src, i, r.next - 1, last, r.value)
    decreases |src| + 1 - i, 0
  {
    var r, c := LexSpans(src, i, last), Get(src, i);
    if c == Ch('-') && last != 0 {
      if Get(src, i + 1) == Ch(']') {
        assert IsMember(src, i, 1, r.next - 1, last, r.value[0]);
      } else {
        MoreWrite(src, i, 2, last, Span(last, src[i + 1]));
      }
    } else {
      MoreWrite(src, i, 1, last, Span(c, c));
    }
  }

  lemma {:induction false} MoreWrite(src: text, i: nat, n: nat, last: byte, sp: Span)
    requires 0 < n && i + n <= |src| && LexMore(src, i + n, sp).Got?
    requires IsMember(src, i, n, LexMore(src, i + n, sp).next - 1, last, sp)
    ensures var r := LexMore(src, i + n, sp); AreMembers(src, i, r.next - 1, last, r.value)
    decreases |src| + 1 - (i + n), 1
  {
    var r := LexMore(src, i + n, sp);
    if Get(src, i + n) != Ch(']') {
      SpansWrite(src, i + n, sp.hi);
      assert r.value[0] == sp && r.value[1..] == LexSpans(src, i + n, sp.hi).value;
      MemberStarts(src, i + n, r.next - 1, sp.hi, r.value[1..]);
    }
    assert IsMember(src, i, n, r.next - 1, last, r.value[0]);
  }

  lemma {:induction false} BracketReads(src: text, i: nat, next: nat, neg: bool, spans: seq<Span>)
    requires IsBracket(src, i, next, neg, spans)
    ensures LexBracket(src, i) == Got(Bracket(neg, spans), next)
  {
    MembersRead(src, if neg then i + 1 else i, next - 1, 0, spans);
  }

  lemma {:induction false} ReadIsBracket(src: text, i: nat)
    requires i <= |src| && LexBracket(src, i).Got?
    ensures var r := LexBracket(src, i); IsBracket(src, i, r.next, r.value.neg, r.value.spans)
  {
    SpansWrite(src, if Get(src, i) == Ch('^') then i + 1 else i, 0);
  }

  // ---- Reading pieces ----

  lemma {:induction false} WritesIsRead(src: text, i: nat, next: nat, eof: byte, sed: bool, first: bool, piece: Piece)
    requires Writes(src, i, next, eof, first, piece)
    ensures LexPiece(src, i, eof, sed, first) == Got(piece, next)
  {
    if piece.Interval? {
      IntervalReads(src, i + 2, next, piece.lo, piece.hi);
    } else if piece.Elem? && piece.cls.Bracket? {
      BracketReads(src, i + 1, next, piece.cls.neg, piece.cls.spans);
    }
  }

  lemma {:induction false} EscapeWrites(src: text, i: nat, eof: byte, first: bool)
    requires i < |src| && src[i] == Ch('\\') != eof && LexEscape(src, i + 1, first).Got?
    ensures var r := LexEscape(src, i + 1, first); Writes(src, i, r.next, eof, first, r.value)
  {
    if Get(src, i + 1) == Ch('{') && !first { ReadIsInterval(src, i + 2); }
  }

  lemma {:induction false} ReadIsWritten(src: text, i: nat, eof: byte, sed: bool, first: bool)
    requires i <= |src|
    ensures var r := LexPiece(src, i, eof, sed, first);
      r.Got? && !r.value.Stop? ==> Writes(src, i, r.next, eof, first, r.value)
  {
    var r, c := LexPiece(src, i, eof, sed, first), Get(src, i);
    if r.Got? && !r.value.Stop? {
      if c == Ch('\\') {
        EscapeWrites(src, i, eof, first);
      } else if c == Ch('[') {
        ReadIsBracket(src, i + 1);
      }
    }
  }

  /** The reader finds a piece, and where it ends, exactly if the text there writes it. */
  lemma {:induction false} PieceExactly(src: text, i: nat, next: nat, eof: byte, sed: bool, first: bool, piece: Piece)
    requires i <= |src| && !piece.Stop?
    ensures LexPiece(src, i, eof, sed, first) == Got(piece, next) <==> Writes(src, i, next, eof, first, piece)
  {
    ReadIsWritten(src, i, eof, sed, first);
    if Writes(src, i, next, eof, first, piece) { WritesIsRead(src, i, next, eof, sed, first, piece); }
  }

  /** The pattern ends at its delimiter, or before a newline unless sed compiles it. */
  predicate EndsAt(src: text, i: nat, eof: byte, sed: bool) {
    i <= |src| && (Get(src, i) == eof || (Get(src, i) == NL && !sed))
  }

  lemma {:induction false} StopExactly(src: text, i: nat, eof: byte, sed: bool, first: bool)
    requires i <= |src|
    ensures (LexPiece(src, i, eof, sed, first).Got? && LexPiece(src, i, eof, sed, first).value.Stop?) <==>
            EndsAt(src, i, eof, sed)
  {}

  // ---- Whole patterns ----

  /** From i on the text divides into pieces, up to its end, that make these items after those of p. */
  ghost predicate IsPattern(src: text, i: nat, eof: byte, sed: bool, p: Partial, items: seq<Instr<Class>>)
    decreases |src| + 1 - i
  {
    if EndsAt(src, i, eof, sed) then p.stack == [] && items == p.items
    else exists next: nat, piece :: IsNext(src, i, next, eof, sed, p, piece, items)
  }

  ghost predicate IsNext(src: text, i: nat, next: nat, eof: byte, sed: bool, p: Partial, piece: Piece,
                         items: seq<Instr<Class>>)
    decreases |src| + 1 - i, 0
  {
    Writes(src, i, next, eof, p.items == [], piece) && Extend(p, piece).Good? &&
    IsPattern(src, next, eof, sed, Extend(p, piece).value, items)
  }

  lemma {:induction false} PatternExactly(src: text, i: nat, eof: byte, sed: bool, p: Partial, items: seq<Instr<Class>>)
    ensures ParseFrom(src, i, eof, sed, p) == Good(items) <==> IsPattern(src, i, eof, sed, p, items)
    decreases |src| + 1 - i
  {
    if i <= |src| {
      var r := LexPiece(src, i, eof, sed, p.items == []);
      StopExactly(src, i, eof, sed, p.items == []);
      if !EndsAt(src, i, eof, sed) {
        if r.Got? && Extend(p, r.value).Good? {
          PatternExactly(src, r.next, eof, sed, Extend(p, r.value).value, items);
          ReadIsWritten(src, i, eof, sed, p.items == []);
          assert IsNext(src, i, r.next, eof, sed, p, r.value, items) <==>
                 IsPattern(src, r.next, eof, sed, Extend(p, r.value).value, items);
        }
        forall next: nat, piece | IsNext(src, i, next, eof, sed, p, piece, items) ensures r == Got(piece, next) {
          WritesIsRead(src, i, next, eof, sed, p.items == [], piece);
        }
      }
    }
  }

  /** An asterisk with nothing to repeat stands for itself. */
  lemma {:induction false} LiteralAsterisk(src: text, i: nat, eof: byte, sed: bool, p: Partial)
    requires i < |src| && src[i] == Ch('*') != eof
    requires p.items == [] || p.items[|p.items| - 1].Bra? || p.items[|p.items| - 1].Ket?
    ensures ParseFrom(src, i, eof, sed, p) ==
            ParseFrom(src, i + 1, eof, sed, p.(items := p.items + [Single(Lit(Ch('*')), Once)]))
  {}

  /** The first nine groups are numbered as they open, and the innermost open one is closed. */
  lemma {:induction false} GroupsRead(src: text, i: nat, eof: byte, sed: bool, p: Partial, k: nat)
    requires i <= |src| && Get(src, i) != eof
    ensures IsEscaped(src, i, i + 2, Ch('(')) && p.nbra < 9 ==>
            ParseFrom(src, i, eof, sed, p) ==
            ParseFrom(src, i + 2, eof, sed, Partial(p.items + [Bra(p.nbra)], [p.nbra] + p.stack, p.nbra + 1, p.closed))
    ensures IsEscaped(src, i, i + 2, Ch(')')) && p.stack != [] ==>
            ParseFrom(src, i, eof, sed, p) ==
            ParseFrom(src, i + 2, eof, sed, Partial(p.items + [Ket(p.stack[0])], p.stack[1..], p.nbra, p.closed + 1))
    ensures 0 < k <= 9 && k <= p.closed && IsEscaped(src, i, i + 2, Ch('0') + k) ==>
            ParseFrom(src, i, eof, sed, p) == ParseFrom(src, i + 2, eof, sed, p.(items := p.items + [Back(k - 1)]))
  {}

  // ---- Errors ----

  /** The digits from i to j stand before a backslash or comma. */
  predicate NumberAt(src: text, i: nat, j: nat) {
    i < j < |src| && AreDigits(src[i..j]) && (src[j] == Ch('\\') || src[j] == Ch(','))
  }

  lemma {:induction false} NoNumber(src: text, i: nat)
    requires i <= |src| && forall j :: !NumberAt(src, i, j)
    ensures LexNumber(src, i, 0) == Bad(Error(16))
  {
    ReadIsDigits(src, i, 0);
    var r := LexNumber(src, i, 0);
    if r.Got? { assert NumberAt(src, i, r.next); }
  }

  /** Error 16: no number; 11: a number above 254; 45: no closing brace. */
  lemma {:induction false} LowerErrors(src: text, i: nat, j: nat)
    requires i <= |src|
    ensures (forall j :: !NumberAt(src, i, j)) ==> LexInterval(src, i) == Bad(Error(16))
    ensures NumberAt(src, i, j) && Number(src[i..j]) > 254 ==> LexInterval(src, i) == Bad(Error(11))
    ensures NumberAt(src, i, j) && Number(src[i..j]) < 255 && src[j] == Ch('\\') && Get(src, j + 1) != Ch('}') ==>
            LexInterval(src, i) == Bad(Error(45))
    ensures NumberAt(src, i, j) && Number(src[i..j]) < 255 && src[j] == Ch(',') ==>
            LexInterval(src, i) == LexUpper(src, j + 1, Number(src[i..j]))
  {
    if forall j :: !NumberAt(src, i, j) { NoNumber(src, i); }
    if NumberAt(src, i, j) { DigitsRead(src, i, j); }
  }

  /** The same after the comma; error 44: a second comma; 46: limits in the wrong order. */
  lemma {:induction false} UpperErrors(src: text, i: nat, j: nat, lo: byte)
    requires i <= |src|
    ensures Get(src, i) == Ch('\\') && Get(src, i + 1) != Ch('}') ==> LexUpper(src, i, lo) == Bad(Error(45))
    ensures Get(src, i) != Ch('\\') && (forall j :: !NumberAt(src, i, j)) ==> LexUpper(src, i, lo) == Bad(Error(16))
    ensures NumberAt(src, i, j) && Number(src[i..j]) > 254 ==> LexUpper(src, i, lo) == Bad(Error(11))
    ensures NumberAt(src, i, j) && Number(src[i..j]) < 255 && src[j] == Ch(',') ==>
            LexUpper(src, i, lo) == Bad(Error(44))
    ensures NumberAt(src, i, j) && Number(src[i..j]) < 255 && src[j] == Ch('\\') && Get(src, j + 1) != Ch('}') ==>
            LexUpper(src, i, lo) == Bad(Error(45))
    ensures NumberAt(src, i, j) && Number(src[i..j]) < lo && ClosesAt(src, j) && lo < 255 ==>
            LexUpper(src, i, lo) == Bad(Error(46))
  {
    if forall j :: !NumberAt(src, i, j) { NoNumber(src, i); }
    if NumberAt(src, i, j) {
      DigitsRead(src, i, j);
      assert src[i] == src[i..j][0];
    }
  }

  /** Error 49: a newline, or the end of the text, where a member should be. */
  lemma {:induction false} BracketErrors(src: text, i: nat, last: byte)
    requires LexSpans(src, i, last).Bad?
    ensures var f := LexSpans(src, i, last).failure;
      f == Error(49) || (f == Overrun && (i > |src| || (|src| > i && src[|src| - 1] == Ch('-'))))
    decreases |src| + 1 - i
  {
    if i <= |src| {
      var c := Get(src, i);
      if c != 0 && c != NL {
        if c == Ch('-') && last != 0 {
          var d := Get(src, i + 1);
          if d != Ch(']') && d != 0 { BracketErrors(src, i + 2, d); }
        } else {
          BracketErrors(src, i + 1, c);
        }
      }
    }
  }

  /** Error 36: an escaped newline, or any newline in sed. */
  lemma {:induction false} NewlineErrors(src: text, i: nat, eof: byte, sed: bool, first: bool)
    requires i <= |src|
    ensures LexPiece(src, i, eof, sed, first) == Bad(Error(36)) <==>
            && Get(src, i) != eof
            && ((sed && Get(src, i) == NL) || (IsEscaped(src, i, i + 2, NL)))
  {
    var c := Get(src, i);
    if c == Ch('[') {
      var from := if Get(src, i + 1) == Ch('^') then i + 2 else i + 1;
      if LexSpans(src, from, 0).Bad? { BracketErrors(src, from, 0); }
    } else if c == Ch('\\') && Get(src, i + 1) == Ch('{') {
      IntervalErrors(src, i + 2);
    }
  }

  lemma {:induction false} IntervalErrors(src: text, i: nat)
    requires i <= |src|
    ensures var r := LexInterval(src, i);
      r.Bad? ==> r.failure in {Error(11), Error(16), Error(44), Error(45), Error(46)}
  {
    var n := LexNumber(src, i, 0);
    ReadIsDigits(src, i, 0);
    if n.Got? && Get(src, n.next) == Ch(',') { ReadIsDigits(src, n.next + 1, 0); }
  }

  /**
   * Error 43: a tenth group; 42: a group closed that is not open, or open at the end;
   * 25: a back-reference to more groups than are closed.
   */
  lemma {:induction false} GroupErrors(src: text, i: nat, eof: byte, sed: bool, p: Partial, k: nat)
    requires i <= |src|
    ensures Get(src, i) != eof && IsEscaped(src, i, i + 2, Ch('(')) && p.nbra >= 9 ==>
            ParseFrom(src, i, eof, sed, p) == Wrong(Error(43))
    ensures Get(src, i) != eof && IsEscaped(src, i, i + 2, Ch(')')) && p.stack == [] ==>
            ParseFrom(src, i, eof, sed, p) == Wrong(Error(42))
    ensures EndsAt(src, i, eof, sed) && p.stack != [] ==> ParseFrom(src, i, eof, sed, p) == Wrong(Error(42))
    ensures Get(src, i) != eof && 0 < k <= 9 && IsEscaped(src, i, i + 2, Ch('0') + k) && p.closed < k ==>
            ParseFrom(src, i, eof, sed, p) == Wrong(Error(25))
  {}
}
