/**
 * The pattern language accepted by compile: how text divides into pieces, and how
 * pieces build a sequence of items.  Error numbers are those passed to ERROR.
 */
module RegexpSyntax {
  import opened RegexpBits
  import opened RegexpTree
  import opened RegexpCode

  /** Overrun: the text ended where a character was still needed. */
  datatype Failure = Error(number: nat) | Overrun

  datatype Piece =
    | Elem(cls: Class)
    | Dollar
    | OpenGroup
    | CloseGroup
    | Digit(k: nat)
    | Asterisk
    | Interval(lo: byte, hi: byte)
    | Stop

  datatype Lexed<T> = Got(value: T, next: nat) | Bad(failure: Failure)

  /** The byte at i; the text is followed by a NUL. */
  function Get(src: seq<letter>, i: nat): byte
    requires i <= |src|
  {
    if i < |src| then src[i] else 0
  }

  const NL: byte := 10

  function Ch(c: char): letter
    requires 1 <= c as int < 256
  {
    c as int
  }

  // ---- Bracket expressions ----

  /** Members from i on, up to and including the closing bracket; last is 0 before the first. */
  function LexSpans(src: seq<letter>, i: nat, last: byte): (r: Lexed<seq<Span>>)
    ensures r.Got? ==> i < r.next <= |src|
    decreases |src| + 1 - i, 0
  {
    if i > |src| then Bad(Overrun)
    else
      var c := Get(src, i);
      if c == 0 || c == NL then Bad(Error(49))
      else if c == Ch('-') && last != 0 then
        var d := Get(src, i + 1);
        if d == Ch(']') then Got([Span(c, c)], i + 2)
        else if d == 0 then Bad(Overrun)
        else LexMore(src, i + 2, Span(last, d))
      else LexMore(src, i + 1, Span(c, c))
  }

  function LexMore(src: seq<letter>, i: nat, span: Span): (r: Lexed<seq<Span>>)
    requires 0 < i <= |src|
    ensures r.Got? ==> i < r.next <= |src|
    decreases |src| + 1 - i, 1
  {
    if Get(src, i) == Ch(']') then Got([span], i + 1)
    else
      var rest := LexSpans(src, i, span.hi);
      if rest.Bad? then rest else Got([span] + rest.value, rest.next)
  }

  function LexBracket(src: seq<letter>, i: nat): (r: Lexed<Class>)
    requires i <= |src|
    ensures r.Got? ==> i < r.next <= |src| && r.value.Bracket?
  {
    var neg := Get(src, i) == Ch('^');
    var spans := LexSpans(src, if neg then i + 1 else i, 0);
    if spans.Bad? then Bad(spans.failure) else Got(Bracket(neg, spans.value), spans.next)
  }

  // ---- Intervals ----

  /** A decimal number from i on, of at least one digit, up to a backslash or comma. */
  function LexNumber(src: seq<letter>, i: nat, acc: nat): (r: Lexed<nat>)
    requires i <= |src|
    ensures r.Got? ==> i < r.next < |src| && (src[r.next] == Ch('\\') || src[r.next] == Ch(','))
    decreases |src| - i
  {
    var c := Get(src, i);
    if !(Ch('0') <= c <= Ch('9')) then Bad(Error(16))
    else
      var n := 10 * acc + c - Ch('0');
      var d := Get(src, i + 1);
      if d == Ch('\\') || d == Ch(',') then Got(n, i + 1) else LexNumber(src, i + 1, n)
  }

  /** The second limit of an interval, after the comma. */
  function LexUpper(src: seq<letter>, i: nat, lo: byte): (r: Lexed<Piece>)
    requires i <= |src|
    ensures r.Got? ==> i < r.next <= |src| && r.value.Interval? && r.value.lo == lo <= r.value.hi
  {
    if Get(src, i) == Ch('\\') then
      if Get(src, i + 1) != Ch('}') then Bad(Error(45)) else Got(Interval(lo, 255), i + 2)
    else
      var n := LexNumber(src, i, 0);
      if n.Bad? then Bad(n.failure)
      else if n.value >= 255 then Bad(Error(11))
      else if src[n.next] == Ch(',') then Bad(Error(44))
      else if Get(src, n.next + 1) != Ch('}') then Bad(Error(45))
      else if n.value < lo then Bad(Error(46))
      else Got(Interval(lo, n.value), n.next + 2)
  }

  function LexInterval(src: seq<letter>, i: nat): (r: Lexed<Piece>)
    requires i <= |src|
    ensures r.Got? ==> i < r.next <= |src| && r.value.Interval? && r.value.lo <= r.value.hi
  {
    var n := LexNumber(src, i, 0);
    if n.Bad? then Bad(n.failure)
    else if n.value >= 255 then Bad(Error(11))
    else if src[n.next] == Ch(',') then LexUpper(src, n.next + 1, n.value)
    else if Get(src, n.next + 1) != Ch('}') then Bad(Error(45))
    else Got(Interval(n.value, n.value), n.next + 2)
  }

  // ---- Pieces ----

  function LexLit(c: byte, next: nat): Lexed<Piece> {
    if c == 0 then Bad(Overrun) else Got(Elem(Lit(c)), next)
  }

  /** What follows a backslash; first says that nothing precedes it. */
  function LexEscape(src: seq<letter>, i: nat, first: bool): (r: Lexed<Piece>)
    requires i <= |src|
    ensures r.Got? ==> i < r.next <= |src| + 1
  {
    var c := Get(src, i);
    if c == Ch('(') then Got(OpenGroup, i + 1)
    else if c == Ch(')') then Got(CloseGroup, i + 1)
    else if c == Ch('{') && !first then LexInterval(src, i + 1)
    else LexOther(c, i + 1)
  }

  /** The escapes of a single character, ending at next. */
  function LexOther(c: byte, next: nat): (r: Lexed<Piece>)
    ensures r.Got? ==> r.next == next
  {
    if c == NL then Bad(Error(36))
    else if c == Ch('n') then LexLit(NL, next)
    else if Ch('1') <= c <= Ch('9') then Got(Digit(c - Ch('1')), next)
    else LexLit(c, next)
  }

  function LexPiece(src: seq<letter>, i: nat, eof: byte, sed: bool, first: bool): (r: Lexed<Piece>)
    requires i <= |src|
    ensures r.Got? && !r.value.Stop? ==> i < r.next <= |src| + 1
  {
    var c := Get(src, i);
    if c == eof then Got(Stop, i + 1)
    else if c == Ch('.') then Got(Elem(Any), i + 1)
    else if c == NL then if sed then Bad(Error(36)) else Got(Stop, i)
    else if c == Ch('*') then Got(Asterisk, i + 1)
    else if c == Ch('$') then
      if Get(src, i + 1) == eof || Get(src, i + 1) == NL then Got(Dollar, i + 1) else LexLit(c, i + 1)
    else if c == Ch('[') then
      var b := LexBracket(src, i + 1);
      if b.Bad? then Bad(b.failure) else Got(Elem(b.value), b.next)
    else if c == Ch('\\') then LexEscape(src, i + 1, first)
    else LexLit(c, i + 1)
  }

  // ---- Items ----

  /** Items so far; the stack of open groups, innermost first; groups opened and closed. */
  datatype Partial = Partial(items: seq<Instr<Class>>, stack: seq<nat>, nbra: nat, closed: nat)

  const Start := Partial([], [], 0, 0)

  datatype Built<T> = Good(value: T) | Wrong(failure: Failure)

  function Add(p: Partial, ins: Instr<Class>): Partial {
    p.(items := p.items + [ins])
  }

  function Last(p: Partial): Instr<Class>
    requires p.items != []
  {
    p.items[|p.items| - 1]
  }

  function SetLast(p: Partial, ins: Instr<Class>): Partial
    requires p.items != []
  {
    p.(items := p.items[..|p.items| - 1] + [ins])
  }

  /** A star after a star or an interval changes nothing. */
  function Starred(ins: Instr<Class>): Instr<Class> {
    match ins
    case Single(cls, rep) => if rep.Once? then Single(cls, Star) else ins
    case Back(k) => BackStar(k)
    case BackStar(k) => ins
    case Patched(_, _) => ins
    case _ => Patched(ins, Star)
  }

  /** An interval replaces a star; advance knows it only on a single-character element. */
  function Ranged(ins: Instr<Class>, lo: byte, hi: byte): Instr<Class> {
    if ins.Single? && !ins.rep.Range? then Single(ins.cls, Range(lo, hi)) else Patched(ins, Range(lo, hi))
  }

  function Extend(p: Partial, piece: Piece): Built<Partial> {
    match piece
    case Elem(cls) => Good(Add(p, Single(cls, Once)))
    case Dollar => Good(Add(p, Dol))
    case OpenGroup =>
      if p.nbra >= NBRA then Wrong(Error(43))
      else Good(Add(p, Bra(p.nbra)).(stack := [p.nbra] + p.stack, nbra := p.nbra + 1))
    case CloseGroup =>
      if p.stack == [] then Wrong(Error(42))
      else Good(Add(p, Ket(p.stack[0])).(stack := p.stack[1..], closed := p.closed + 1))
    case Digit(k) =>
      if k >= p.closed then Wrong(Error(25)) else Good(Add(p, Back(k)))
    case Asterisk =>
      if p.items == [] || Last(p).Bra? || Last(p).Ket? then Good(Add(p, Single(Lit(Ch('*')), Once)))
      else Good(SetLast(p, Starred(Last(p))))
    case Interval(lo, hi) => Good(if p.items == [] then p else SetLast(p, Ranged(Last(p), lo, hi)))
    case Stop => Good(p)
  }

  /** The items of the text from i on. */
  function ParseFrom(src: seq<letter>, i: nat, eof: byte, sed: bool, p: Partial): Built<seq<Instr<Class>>>
    decreases |src| + 1 - i
  {
    if i > |src| then Wrong(Overrun)
    else
      match LexPiece(src, i, eof, sed, p.items == [])
      case Bad(f) => Wrong(f)
      case Got(piece, next) =>
        if piece.Stop? then
          if p.stack != [] then Wrong(Error(42)) else Good(p.items)
        else
          match Extend(p, piece)
          case Wrong(f) => Wrong(f)
          case Good(q) => ParseFrom(src, next, eof, sed, q)
  }

  predicate IsAnchored(src: seq<letter>) {
    Get(src, 0) == Ch('^')
  }

  /** A non-empty pattern, after its leading circumflex if any. */
  function Parse(src: seq<letter>, eof: byte, sed: bool): Built<seq<Instr<Class>>> {
    ParseFrom(src, if IsAnchored(src) then 1 else 0, eof, sed, Start)
  }
}
