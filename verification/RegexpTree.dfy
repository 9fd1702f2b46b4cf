/**
 * Patterns as syntax trees, and their meaning.  A tree is matched under a list of
 * repetition counts, one for each repeated element from left to right; a count list
 * determines at most one way to match.
 */
module RegexpTree {
  import opened RegexpBits

  /** A member or range of a bracket expression; a descending range denotes only its end. */
  datatype Span = Span(lo: letter, hi: letter)

  datatype Class = Any | Lit(c: letter) | Bracket(neg: bool, spans: seq<Span>)

  predicate InSpan(x: int, sp: Span) {
    sp.lo <= x < sp.hi || x == sp.hi
  }

  predicate InSpans(x: int, spans: seq<Span>) {
    exists i :: 0 <= i < |spans| && InSpan(x, spans[i])
  }

  function Members(spans: seq<Span>): set<int> {
    set x | 0 <= x < 256 && InSpans(x, spans)
  }

  /** The bytes a single-character element matches; never NUL. */
  predicate ClassHas(cls: Class, x: byte) {
    match cls
    case Any => x != 0
    case Lit(c) => x == c
    case Bracket(neg, spans) => x != 0 && InSpans(x, spans) != neg
  }

  /** Range(lo, hi) with hi == 255 is an interval without upper limit in the text. */
  datatype Rep = Once | Star | Range(lo: byte, hi: byte)

  const LIMIT := 20000

  function MaxExtra(lo: byte, hi: byte): int {
    if hi == 255 then LIMIT else hi - lo
  }

  predicate Allows(rep: Rep, n: nat) {
    match rep
    case Once => n == 1
    case Star => true
    case Range(lo, hi) => lo <= n <= lo + MaxExtra(lo, hi)
  }

  datatype Tree =
    | Empty
    | Atom(cls: Class, rep: Rep, next: Tree)
    | Eol(next: Tree)
    | Group(k: nat, body: Tree, next: Tree)
    | Ref(k: nat, next: Tree)
    | RefStar(k: nat, next: Tree)

  /** Captured spans of the subject by group number. */
  type Spans = map<nat, (nat, nat)>

  predicate Captured(s: seq<letter>, spans: Spans, k: nat) {
    k in spans && spans[k].0 <= spans[k].1 <= |s|
  }

  function Text(s: seq<letter>, spans: Spans, k: nat): seq<letter>
    requires Captured(s, spans, k)
  {
    s[spans[k].0..spans[k].1]
  }

  predicate AllIn(cls: Class, s: seq<letter>, i: nat, n: nat) {
    i + n <= |s| && forall j :: i <= j < i + n ==> ClassHas(cls, s[j])
  }

  /** The position after n repetitions of width w. */
  function After(i: nat, n: nat, w: nat): nat {
    i + n * w
  }

  /** n copies of w follow position i. */
  predicate Copies(s: seq<letter>, i: nat, w: seq<letter>, n: nat)
    decreases n
  {
    n == 0 || (i + |w| <= |s| && s[i..i + |w|] == w && Copies(s, i + |w|, w, n - 1))
  }

  /**
   * What a choice of counts leads to: no match; an unending repetition of an empty
   * capture; or a position, the captures, and the counts not yet used.
   */
  datatype Path = Dead | Endless | At(pos: nat, spans: Spans, counts: seq<nat>)

  function Eval(t: Tree, s: seq<letter>, i: nat, spans: Spans, counts: seq<nat>): Path
    decreases t
  {
    match t
    case Empty => At(i, spans, counts)
    case Atom(cls, rep, next) =>
      if rep.Once? then
        if AllIn(cls, s, i, 1) then Eval(next, s, i + 1, spans, counts) else Dead
      else if counts != [] && Allows(rep, counts[0]) && AllIn(cls, s, i, counts[0]) then
        Eval(next, s, i + counts[0], spans, counts[1..])
      else Dead
    case Eol(next) =>
      if i == |s| then Eval(next, s, i, spans, counts) else Dead
    case Group(k, body, next) =>
      (match Eval(body, s, i, spans, counts)
       case At(j, inner, left) => Eval(next, s, j, inner[k := (i, j)], left)
       case other => other)
    case Ref(k, next) =>
      if Captured(s, spans, k) && Copies(s, i, Text(s, spans, k), 1) then
        Eval(next, s, i + |Text(s, spans, k)|, spans, counts)
      else Dead
    case RefStar(k, next) =>
      if !Captured(s, spans, k) then Dead
      else
        var w := Text(s, spans, k);
        if w == [] then (if counts == [] then Endless else Dead)
        else if counts != [] && Copies(s, i, w, counts[0]) then
          Eval(next, s, After(i, counts[0], |w|), spans, counts[1..])
        else Dead
  }
}
