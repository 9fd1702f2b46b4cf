/** Writing items as pattern text, and reading the pieces of that text. */
module RegexpSpelling {
  import opened RegexpBits
  import opened RegexpTree
  import opened RegexpCode
  import opened RegexpSyntax
  import opened RegexpGrammar

  type text = seq<letter>

  // ---- Spelling ----

  const BACKSLASH: letter := Ch('\\')

  /** The decimal digits of n. */
  function Decimal(n: nat): text
    decreases n
  {
    if n < 10 then [Ch('0') + n] else Decimal(n / 10) + [Ch('0') + n % 10]
  }

  predicate IsSpecial(c: letter) {
    c in {Ch('.'), Ch('*'), Ch('['), Ch('\\'), Ch('$'), Ch('^')}
  }

  /** A member is written as itself if it can be, otherwise as a range, with a hyphen and its end. */
  function SpellSpan(sp: Span, final: bool): text {
    if IsPlain(sp, final) then [sp.hi] else [Ch('-'), sp.hi]
  }

  /** A single member that is read as one: no newline, and a hyphen only before the closing bracket. */
  predicate IsPlain(sp: Span, final: bool) {
    sp.lo == sp.hi && sp.hi != NL && (sp.hi == Ch('-') ==> final)
  }

  function SpellSpans(spans: seq<Span>): text {
    if spans == [] then [Ch(']')] else SpellSpan(spans[0], |spans| == 1) + SpellSpans(spans[1..])
  }

  /** The first member, which may be a bracket or hyphen, and the others. */
  function SpellMembers(spans: seq<Span>): text {
    if spans == [] then [] else [spans[0].hi] + SpellSpans(spans[1..])
  }

  function SpellClass(cls: Class): text {
    match cls
    case Any => [Ch('.')]
    case Lit(c) =>
      if c == NL then [BACKSLASH, Ch('n')] else if IsSpecial(c) then [BACKSLASH, c] else [c]
    case Bracket(neg, spans) => [Ch('[')] + (Caret(neg) + SpellMembers(spans))
  }

  function SpellLimits(lo: byte, hi: byte): text {
    Decimal(lo) + (if lo == hi then [] else if hi == 255 then [Ch(',')] else [Ch(',')] + Decimal(hi))
  }

  function SpellDigit(k: nat): text {
    if k < NBRA then [BACKSLASH, Ch('1') + k] else []
  }

  function SpellPiece(piece: Piece): text {
    match piece
    case Elem(cls) => SpellClass(cls)
    case Dollar => [Ch('$')]
    case OpenGroup => [BACKSLASH, Ch('(')]
    case CloseGroup => [BACKSLASH, Ch(')')]
    case Digit(k) => SpellDigit(k)
    case Asterisk => [Ch('*')]
    case Interval(lo, hi) => [BACKSLASH, Ch('{')] + (SpellLimits(lo, hi) + [BACKSLASH, Ch('}')])
    case Stop => []
  }

  /** The pieces of an item: an element may be followed by its repetition. */
  function Pieces(ins: Instr<Class>): seq<Piece> {
    match ins
    case Single(cls, rep) => [Elem(cls)] + RepPieces(rep)
    case Dol => [Dollar]
    case Bra(_) => [OpenGroup]
    case Ket(_) => [CloseGroup]
    case Back(k) => [Digit(k)]
    case BackStar(k) => [Digit(k), Asterisk]
    case Patched(_, _) => []
  }

  function RepPieces(rep: Rep): seq<Piece> {
    match rep
    case Once => []
    case Star => [Asterisk]
    case Range(lo, hi) => [Interval(lo, hi)]
  }

  function PiecesOf(items: seq<Instr<Class>>): seq<Piece> {
    if items == [] then [] else Pieces(items[0]) + PiecesOf(items[1..])
  }

  /** Pieces one after the other, each spelled by f. */
  function Join(f: Piece -> text, pieces: seq<Piece>): text {
    if pieces == [] then [] else f(pieces[0]) + Join(f, pieces[1..])
  }

  function SpellPattern(anchored: bool, items: seq<Instr<Class>>): text {
    (if anchored then [Ch('^')] else []) + Join(SpellPiece, PiecesOf(items))
  }

  // ---- What can be spelled ----

  /** A bracket's later members: each read as one, or a range from the last; none ends in a bracket. */
  predicate SpansOk(spans: seq<Span>, last: letter) {
    spans == [] ||
    (var sp := spans[0];
     && sp.hi != Ch(']')
     && (IsPlain(sp, |spans| == 1) || sp.lo == last)
     && SpansOk(spans[1..], sp.hi))
  }

  predicate BracketOk(neg: bool, spans: seq<Span>) {
    && spans != [] && spans[0].lo == spans[0].hi && spans[0].hi != NL
    && (neg || spans[0].hi != Ch('^'))
    && SpansOk(spans[1..], spans[0].hi)
  }

  predicate ClassOk(cls: Class) {
    cls.Bracket? ==> BracketOk(cls.neg, cls.spans)
  }

  predicate SingleOk(cls: Class, rep: Rep) {
    ClassOk(cls) && (rep.Range? ==> rep.lo < 255 && rep.lo <= rep.hi)
  }

  /** Items that follow a partial pattern: groups numbered in order, $ only at the end. */
  predicate Spellable(items: seq<Instr<Class>>, stack: seq<nat>, nbra: nat, closed: nat) {
    if items == [] then stack == []
    else
      var rest := items[1..];
      match items[0]
      case Single(cls, rep) => SingleOk(cls, rep) && Spellable(rest, stack, nbra, closed)
      case Dol => rest == [] && stack == []
      case Bra(k) => k == nbra < NBRA && Spellable(rest, [nbra] + stack, nbra + 1, closed)
      case Ket(k) => stack != [] && k == stack[0] && Spellable(rest, stack[1..], nbra, closed + 1)
      case Back(k) => k < closed && k < NBRA && Spellable(rest, stack, nbra, closed)
      case BackStar(k) => k < closed && k < NBRA && Spellable(rest, stack, nbra, closed)
      case Patched(_, _) => false
  }

  // ---- Reading back what was written ----

  /** The text w stands at position i. */
  predicate Reads(src: text, i: nat, w: text)
    decreases |w|
  {
    w == [] || (i < |src| && src[i] == w[0] && Reads(src, i + 1, w[1..]))
  }

  lemma {:induction false} ReadsAt(src: text, i: nat, w: text, j: nat)
    requires Reads(src, i, w) && j < |w|
    ensures i + j < |src| && src[i + j] == w[j]
    decreases |w|
  {
    if j > 0 { ReadsAt(src, i + 1, w[1..], j - 1); }
  }

  lemma {:induction false} ReadsSplit(src: text, i: nat, a: text, b: text)
    requires Reads(src, i, a + b)
    ensures Reads(src, i, a) && Reads(src, i + |a|, b)
    decreases |a|
  {
    if a == [] {
      assert a + b == b;
    } else {
      assert (a + b)[1..] == a[1..] + b;
      ReadsSplit(src, i + 1, a[1..], b);
    }
  }

  lemma {:induction false} ReadSpans(src: text, i: nat, spans: seq<Span>, last: letter)
    requires SpansOk(spans, last) && spans != [] && Reads(src, i, SpellSpans(spans))
    ensures src[i] != Ch(']')
    ensures LexSpans(src, i, last) == Got(spans, i + |SpellSpans(spans)|)
    decreases |spans|, 0
  {
    var sp, rest := spans[0], spans[1..];
    var w := SpellSpan(sp, |spans| == 1);
    ReadsSplit(src, i, w, SpellSpans(rest));
    ReadsAt(src, i, w, 0);
    ReadsAt(src, i + |w|, SpellSpans(rest), 0);
    assert [sp] + rest == spans;
    if !IsPlain(sp, |spans| == 1) {
      ReadsAt(src, i, w, 1);
      ReadMore(src, i + 2, sp, rest);
    } else if sp.hi != Ch('-') {
      ReadMore(src, i + 1, sp, rest);
    } else {
      assert rest == [] && spans == [sp];
    }
  }

  lemma {:induction false} ReadMore(src: text, i: nat, sp: Span, rest: seq<Span>)
    requires 0 < i && SpansOk(rest, sp.hi) && Reads(src, i, SpellSpans(rest))
    ensures i <= |src| && LexMore(src, i, sp) == Got([sp] + rest, i + |SpellSpans(rest)|)
    decreases |rest|, 1
  {
    if rest == [] {
      ReadsAt(src, i, SpellSpans(rest), 0);
      assert [sp] + rest == [sp];
    } else {
      ReadSpans(src, i, rest, sp.hi);
    }
  }

  function Caret(neg: bool): text {
    if neg then [Ch('^')] else []
  }

  lemma {:induction false} ReadFirst(src: text, i: nat, spans: seq<Span>)
    requires spans != [] && spans[0].lo == spans[0].hi && spans[0].hi != NL && SpansOk(spans[1..], spans[0].hi)
    requires Reads(src, i, SpellMembers(spans))
    ensures src[i] == spans[0].hi
    ensures LexSpans(src, i, 0) == Got(spans, i + |SpellMembers(spans)|)
  {
    var sp, rest := spans[0], spans[1..];
    ReadsSplit(src, i, [sp.hi], SpellSpans(rest));
    ReadsAt(src, i, [sp.hi], 0);
    ReadMore(src, i + 1, sp, rest);
    assert [sp] + rest == spans;
  }

  lemma {:induction false} ReadBracket(src: text, i: nat, neg: bool, spans: seq<Span>)
    requires BracketOk(neg, spans) && Reads(src, i, Caret(neg) + SpellMembers(spans))
    ensures LexBracket(src, i) == Got(Bracket(neg, spans), i + |Caret(neg) + SpellMembers(spans)|)
  {
    ReadsSplit(src, i, Caret(neg), SpellMembers(spans));
    if neg { ReadsAt(src, i, Caret(neg), 0); }
    ReadFirst(src, i + |Caret(neg)|, spans);
  }

  // ---- Numbers ----

  predicate AllDigits(ds: text) {
    forall j :: 0 <= j < |ds| ==> Ch('0') <= ds[j] <= Ch('9')
  }

  function Value(ds: text, acc: nat): nat
    requires AllDigits(ds)
    decreases |ds|
  {
    if ds == [] then acc else Value(ds[1..], 10 * acc + ds[0] - Ch('0'))
  }

  lemma {:induction false} ValueAppend(ds: text, d: letter, acc: nat)
    requires AllDigits(ds + [d])
    ensures AllDigits(ds) && Ch('0') <= d <= Ch('9')
    ensures Value(ds + [d], acc) == 10 * Value(ds, acc) + d - Ch('0')
    decreases |ds|
  {
    assert (ds + [d])[|ds|] == d;
    assert forall j :: 0 <= j < |ds| ==> (ds + [d])[j] == ds[j];
    if ds == [] {
      assert ds + [d] == [d];
    } else {
      assert (ds + [d])[1..] == ds[1..] + [d];
      ValueAppend(ds[1..], d, 10 * acc + ds[0] - Ch('0'));
    }
  }

  lemma {:induction false} DecimalValue(n: nat)
    ensures AllDigits(Decimal(n)) && Decimal(n) != [] && Value(Decimal(n), 0) == n
    decreases n
  {
    if n >= 10 {
      DecimalValue(n / 10);
      ValueAppend(Decimal(n / 10), Ch('0') + n % 10, 0);
    } else {
      assert Decimal(n)[1..] == [];
    }
  }

  lemma {:induction false} ReadNumber(src: text, i: nat, ds: text, acc: nat)
    requires ds != [] && AllDigits(ds) && Reads(src, i, ds)
    requires i + |ds| < |src| && (src[i + |ds|] == Ch('\\') || src[i + |ds|] == Ch(','))
    ensures LexNumber(src, i, acc) == Got(Value(ds, acc), i + |ds|)
    decreases |ds|
  {
    ReadsAt(src, i, ds, 0);
    if |ds| == 1 {
      assert ds[1..] == [];
    } else {
      ReadsAt(src, i, ds, 1);
      assert ds == [ds[0]] + ds[1..];
      ReadsSplit(src, i, [ds[0]], ds[1..]);
      ReadNumber(src, i + 1, ds[1..], 10 * acc + ds[0] - Ch('0'));
    }
  }

  /** Digits that spell n. */
  predicate Denotes(ds: text, n: nat) {
    ds != [] && AllDigits(ds) && Value(ds, 0) == n
  }

  /** The closing brace of an interval stands at i. */
  predicate Closes(src: text, i: nat) {
    i + 1 < |src| && src[i] == BACKSLASH && src[i + 1] == Ch('}')
  }

  lemma {:induction false} ReadExact(src: text, i: nat, lo: byte, low: text)
    requires lo < 255 && Denotes(low, lo) && Reads(src, i, low) && Closes(src, i + |low|)
    ensures LexInterval(src, i) == Got(Interval(lo, lo), i + |low| + 2)
  {
    ReadNumber(src, i, low, 0);
  }

  /** A lower limit and a comma, then an upper limit or none. */
  lemma {:induction false} ReadBetween(src: text, i: nat, lo: byte, hi: byte, low: text, high: text)
    requires lo < hi && Denotes(low, lo) && (if hi == 255 then high == [] else Denotes(high, hi))
    requires Reads(src, i, low) && i + |low| < |src| && src[i + |low|] == Ch(',') && Reads(src, i + |low| + 1, high)
    requires Closes(src, i + |low| + 1 + |high|)
    ensures LexInterval(src, i) == Got(Interval(lo, hi), i + |low| + 1 + |high| + 2)
  {
    ReadNumber(src, i, low, 0);
    if hi != 255 {
      ReadsAt(src, i + |low| + 1, high, 0);
      ReadNumber(src, i + |low| + 1, high, 0);
    }
  }

  /** The limits, as digits, and what closes them. */
  lemma {:induction false} ReadInterval(src: text, i: nat, lo: byte, hi: byte)
    requires lo < 255 && lo <= hi
    requires Reads(src, i, SpellLimits(lo, hi) + [BACKSLASH, Ch('}')])
    ensures LexInterval(src, i) == Got(Interval(lo, hi), i + |SpellLimits(lo, hi)| + 2)
  {
    DecimalValue(lo);
    DecimalValue(hi);
    ReadsClose(src, i, SpellLimits(lo, hi));
    if lo == hi {
      assert SpellLimits(lo, hi) == Decimal(lo);
      ReadExact(src, i, lo, Decimal(lo));
    } else {
      var high := if hi == 255 then [] else Decimal(hi);
      assert SpellLimits(lo, hi) == Decimal(lo) + ([Ch(',')] + high);
      ReadsComma(src, i, Decimal(lo), high);
      ReadBetween(src, i, lo, hi, Decimal(lo), high);
    }
  }

  lemma {:induction false} ReadsClose(src: text, i: nat, w: text)
    requires Reads(src, i, w + [BACKSLASH, Ch('}')])
    ensures Reads(src, i, w) && Closes(src, i + |w|)
  {
    var close: text := [BACKSLASH, Ch('}')];
    ReadsSplit(src, i, w, close);
    ReadsAt(src, i + |w|, close, 0);
    ReadsAt(src, i + |w|, close, 1);
  }

  lemma {:induction false} ReadsComma(src: text, i: nat, low: text, high: text)
    requires Reads(src, i, low + ([Ch(',')] + high))
    ensures Reads(src, i, low) && i + |low| < |src| && src[i + |low|] == Ch(',') && Reads(src, i + |low| + 1, high)
  {
    ReadsSplit(src, i, low, [Ch(',')] + high);
    ReadsSplit(src, i + |low|, [Ch(',')], high);
    ReadsAt(src, i + |low|, [Ch(',')], 0);
  }

  // ---- Pieces ----

  /** A piece is read at i, whatever precedes it unless it is an interval. */
  predicate Lexes(src: text, i: nat, sed: bool, first: bool, piece: Piece, next: nat) {
    i <= |src| && LexPiece(src, i, 0, sed, first) == Got(piece, next)
  }

  lemma {:induction false} ReadClass(src: text, i: nat, sed: bool, first: bool, cls: Class)
    requires ClassOk(cls) && Reads(src, i, SpellClass(cls))
    ensures Lexes(src, i, sed, first, Elem(cls), i + |SpellClass(cls)|)
  {
    var w := SpellClass(cls);
    ReadsAt(src, i, w, 0);
    match cls
    case Any =>
    case Lit(c) => if |w| == 2 { ReadsAt(src, i, w, 1); }
    case Bracket(neg, spans) =>
      ReadsSplit(src, i, [Ch('[')], Caret(neg) + SpellMembers(spans));
      ReadBracket(src, i + 1, neg, spans);
  }

  lemma {:induction false} ReadRange(src: text, i: nat, sed: bool, lo: byte, hi: byte)
    requires lo < 255 && lo <= hi && Reads(src, i, SpellPiece(Interval(lo, hi)))
    ensures Lexes(src, i, sed, false, Interval(lo, hi), i + |SpellPiece(Interval(lo, hi))|)
  {
    var open: text := [BACKSLASH, Ch('{')];
    ReadsSplit(src, i, open, SpellLimits(lo, hi) + [BACKSLASH, Ch('}')]);
    ReadsAt(src, i, open, 0);
    ReadsAt(src, i, open, 1);
    ReadInterval(src, i + 2, lo, hi);
  }

  lemma {:induction false} ReadEscape(src: text, i: nat, sed: bool, first: bool, c: letter)
    requires Reads(src, i, [BACKSLASH, c])
    ensures c == Ch('(') ==> Lexes(src, i, sed, first, OpenGroup, i + 2)
    ensures c == Ch(')') ==> Lexes(src, i, sed, first, CloseGroup, i + 2)
    ensures Ch('1') <= c <= Ch('9') ==> Lexes(src, i, sed, first, Digit(c - Ch('1')), i + 2)
  {
    var w: text := [BACKSLASH, c];
    ReadsAt(src, i, w, 0);
    ReadsAt(src, i, w, 1);
  }

  /** A piece can be spelled where nothing, or something, precedes it. */
  predicate PieceOk(piece: Piece, first: bool) {
    match piece
    case Elem(cls) => ClassOk(cls)
    case Digit(k) => k < NBRA
    case Interval(lo, hi) => !first && lo < 255 && lo <= hi
    case Stop => false
    case _ => true
  }

  /** A spelled piece is read back; a $ is known to end the text. */
  lemma {:induction false} ReadPiece(src: text, i: nat, sed: bool, first: bool, piece: Piece)
    requires PieceOk(piece, first) && Reads(src, i, SpellPiece(piece))
    requires piece.Dollar? ==> i + |SpellPiece(piece)| == |src|
    ensures Lexes(src, i, sed, first, piece, i + |SpellPiece(piece)|)
  {
    match piece
    case Elem(cls) => ReadClass(src, i, sed, first, cls);
    case Dollar => ReadsAt(src, i, SpellPiece(piece), 0);
    case OpenGroup => ReadEscape(src, i, sed, first, Ch('('));
    case CloseGroup => ReadEscape(src, i, sed, first, Ch(')'));
    case Digit(k) => ReadEscape(src, i, sed, first, Ch('1') + k);
    case Asterisk => ReadsAt(src, i, SpellPiece(piece), 0);
    case Interval(lo, hi) => ReadRange(src, i, sed, lo, hi);
  }
}
