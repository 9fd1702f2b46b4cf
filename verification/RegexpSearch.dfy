/**
 * The search made by a compiled pattern.  Run follows one choice of repetition counts;
 * Search tries the choices in the order advance does.
 */
module RegexpSearch {
  import opened RegexpBits
  import opened RegexpTree
  import opened RegexpCode

  /** Groups being matched, innermost first, with their starts; and the finished captures. */
  datatype Caps = Caps(open: seq<(nat, nat)>, spans: Spans)

  datatype Outcome = Fail | Hang | Match(end: nat, spans: Spans)

  type Program = seq<Instr<Cell>>

  predicate Passes(cell: Cell, s: seq<letter>, i: nat, n: nat) {
    i + n <= |s| && forall j :: i <= j < i + n ==> CellHas(cell, s[j])
  }

  function Open(caps: Caps, k: nat, i: nat): Caps {
    caps.(open := [(k, i)] + caps.open)
  }

  function Close(caps: Caps, i: nat): Caps
    requires caps.open != []
  {
    Caps(caps.open[1..], caps.spans[caps.open[0].0 := (caps.open[0].1, i)])
  }

  // ---- Instructions without a choice ----

  datatype Step = Stuck | Go(pos: nat, caps: Caps)

  function Move(ins: Instr<Cell>, s: seq<letter>, i: nat, caps: Caps): Step {
    match ins
    case Single(cell, rep) => if Passes(cell, s, i, 1) then Go(i + 1, caps) else Stuck
    case Dol => if i == |s| then Go(i, caps) else Stuck
    case Bra(k) => Go(i, Open(caps, k, i))
    case Ket(k) => if caps.open != [] && caps.open[0].0 == k then Go(i, Close(caps, i)) else Stuck
    case Back(k) =>
      if Captured(s, caps.spans, k) && Copies(s, i, Text(s, caps.spans, k), 1)
      then Go(i + |Text(s, caps.spans, k)|, caps) else Stuck
    case BackStar(k) => Stuck
    case Patched(_, _) => Stuck
  }

  // ---- Repeated instructions ----

  predicate IsRepeat(ins: Instr<Cell>) {
    ins.BackStar? || (ins.Single? && !ins.rep.Once?)
  }

  /** A starred back-reference to an empty capture repeats for ever. */
  predicate IsEndless(ins: Instr<Cell>, s: seq<letter>, caps: Caps) {
    ins.BackStar? && Captured(s, caps.spans, ins.k) && Text(s, caps.spans, ins.k) == []
  }

  /** How far one repetition moves. */
  function Stride(ins: Instr<Cell>, s: seq<letter>, caps: Caps): nat {
    if ins.BackStar? && Captured(s, caps.spans, ins.k) then |Text(s, caps.spans, ins.k)| else 1
  }

  predicate CanRepeat(ins: Instr<Cell>, s: seq<letter>, i: nat, caps: Caps, n: nat) {
    match ins
    case Single(cell, rep) => Allows(rep, n) && Passes(cell, s, i, n)
    case BackStar(k) => Captured(s, caps.spans, k) && Copies(s, i, Text(s, caps.spans, k), n)
    case _ => false
  }

  /** The outcome under one choice of counts, which must be used up exactly. */
  function Run(prog: Program, s: seq<letter>, i: nat, caps: Caps, counts: seq<nat>): Outcome
    decreases |prog|
  {
    if prog == [] then
      if counts == [] then Match(i, caps.spans) else Fail
    else
      var ins, rest := prog[0], prog[1..];
      if !IsRepeat(ins) then
        match Move(ins, s, i, caps)
        case Stuck => Fail
        case Go(j, after) => Run(rest, s, j, after, counts)
      else if IsEndless(ins, s, caps) then
        if counts == [] then Hang else Fail
      else if counts != [] && CanRepeat(ins, s, i, caps, counts[0]) then
        Run(rest, s, After(i, counts[0], Stride(ins, s, caps)), caps, counts[1..])
      else Fail
  }

  // ---- Greedy search ----

  /** The longest run of bytes passing a test, up to a limit. */
  function Most(cell: Cell, s: seq<letter>, i: nat, limit: nat): nat
    decreases limit
  {
    if limit > 0 && i < |s| && CellHas(cell, s[i]) then 1 + Most(cell, s, i + 1, limit - 1) else 0
  }

  function MostCopies(s: seq<letter>, i: nat, w: seq<letter>): nat
    requires w != []
    decreases |s| - i
  {
    if i + |w| <= |s| && s[i..i + |w|] == w then 1 + MostCopies(s, i + |w|, w) else 0
  }

  function Fewest(ins: Instr<Cell>): nat {
    if ins.Single? && ins.rep.Range? then ins.rep.lo else 0
  }

  /** The greatest number of repetitions, or less than Fewest if there is none. */
  function Greatest(ins: Instr<Cell>, s: seq<letter>, i: nat, caps: Caps): int
    requires IsRepeat(ins) && !IsEndless(ins, s, caps)
  {
    match ins
    case Single(cell, Range(lo, hi)) =>
      if MaxExtra(lo, hi) < 0 then -1 else Most(cell, s, i, lo + MaxExtra(lo, hi))
    case Single(cell, rep) => Most(cell, s, i, |s|)
    case BackStar(k) =>
      if Captured(s, caps.spans, k) then MostCopies(s, i, Text(s, caps.spans, k)) else -1
  }

  function Search(prog: Program, s: seq<letter>, i: nat, caps: Caps): Outcome
    decreases |prog|, 0
  {
    if prog == [] then Match(i, caps.spans)
    else
      var ins, rest := prog[0], prog[1..];
      if !IsRepeat(ins) then
        match Move(ins, s, i, caps)
        case Stuck => Fail
        case Go(j, after) => Search(rest, s, j, after)
      else if IsEndless(ins, s, caps) then Hang
      else
        var lo, n := Fewest(ins), Greatest(ins, s, i, caps);
        if n < lo then Fail else Try(rest, s, i, Stride(ins, s, caps), lo, n, caps)
  }

  /** Tries n, n - 1, ..., lo repetitions of width w before the rest. */
  function Try(rest: Program, s: seq<letter>, i: nat, w: nat, lo: nat, n: nat, caps: Caps): Outcome
    requires lo <= n
    decreases |rest|, n + 1
  {
    var r := Search(rest, s, After(i, n, w), caps);
    if !r.Fail? || n == lo then r else Try(rest, s, i, w, lo, n - 1, caps)
  }

  /** The number of repetitions Try settles on. */
  function Chosen(rest: Program, s: seq<letter>, i: nat, w: nat, lo: nat, n: nat, caps: Caps): nat
    requires lo <= n
    decreases n
  {
    if !Search(rest, s, After(i, n, w), caps).Fail? || n == lo then n
    else Chosen(rest, s, i, w, lo, n - 1, caps)
  }

  /** The counts the search settles on. */
  function Choice(prog: Program, s: seq<letter>, i: nat, caps: Caps): seq<nat>
    decreases |prog|
  {
    if prog == [] then []
    else
      var ins, rest := prog[0], prog[1..];
      if !IsRepeat(ins) then
        match Move(ins, s, i, caps)
        case Stuck => []
        case Go(j, after) => Choice(rest, s, j, after)
      else if IsEndless(ins, s, caps) then []
      else
        var lo, n, w := Fewest(ins), Greatest(ins, s, i, caps), Stride(ins, s, caps);
        if n < lo then []
        else
          var c := Chosen(rest, s, i, w, lo, n, caps);
          [c] + Choice(rest, s, After(i, c, w), caps)
  }

  /** Lexicographic order on counts. */
  predicate LexLe(a: seq<nat>, b: seq<nat>) {
    if a == [] || b == [] then a == b
    else a[0] < b[0] || (a[0] == b[0] && LexLe(a[1..], b[1..]))
  }

  lemma {:induction false} MostIsMost(cell: Cell, s: seq<letter>, i: nat, limit: nat, n: nat)
    requires i <= |s|
    ensures n <= Most(cell, s, i, limit) <==> n <= limit && Passes(cell, s, i, n)
    decreases limit
  {
    if n > 0 && limit > 0 && i < |s| && CellHas(cell, s[i]) {
      MostIsMost(cell, s, i + 1, limit - 1, n - 1);
    }
  }

  lemma {:induction false} MostCopiesIsMost(s: seq<letter>, i: nat, w: seq<letter>, n: nat)
    requires w != []
    ensures n <= MostCopies(s, i, w) <==> Copies(s, i, w, n)
    decreases n
  {
    if n > 0 && i + |w| <= |s| && s[i..i + |w|] == w {
      MostCopiesIsMost(s, i + |w|, w, n - 1);
    }
  }

  lemma {:induction false} CopiesFit(s: seq<letter>, i: nat, w: seq<letter>, n: nat)
    requires i <= |s| && Copies(s, i, w, n)
    ensures After(i, n, |w|) <= |s|
    decreases n
  {
    if n > 0 {
      CopiesFit(s, i + |w|, w, n - 1);
      assert n * |w| == |w| + (n - 1) * |w|;
    }
  }

  /** The possible repetition counts are exactly those from Fewest to Greatest. */
  lemma {:induction false} RepeatCounts(ins: Instr<Cell>, s: seq<letter>, i: nat, caps: Caps, n: nat)
    requires i <= |s|
    requires IsRepeat(ins) && !IsEndless(ins, s, caps)
    ensures CanRepeat(ins, s, i, caps, n) <==> Fewest(ins) <= n <= Greatest(ins, s, i, caps)
    ensures CanRepeat(ins, s, i, caps, n) ==> After(i, n, Stride(ins, s, caps)) <= |s|
  {
    if ins.BackStar? {
      if Captured(s, caps.spans, ins.k) {
        MostCopiesIsMost(s, i, Text(s, caps.spans, ins.k), n);
        if CanRepeat(ins, s, i, caps, n) { CopiesFit(s, i, Text(s, caps.spans, ins.k), n); }
      }
    } else if ins.rep.Star? {
      MostIsMost(ins.cls, s, i, |s|, n);
    } else if MaxExtra(ins.rep.lo, ins.rep.hi) >= 0 {
      MostIsMost(ins.cls, s, i, ins.rep.lo + MaxExtra(ins.rep.lo, ins.rep.hi), n);
    }
  }

  lemma {:induction false} MoveFits(ins: Instr<Cell>, s: seq<letter>, i: nat, caps: Caps)
    requires i <= |s| && Move(ins, s, i, caps).Go?
    ensures Move(ins, s, i, caps).pos <= |s|
  {}

  lemma {:induction false} TryChosen(rest: Program, s: seq<letter>, i: nat, w: nat, lo: nat, n: nat, caps: Caps)
    requires lo <= n
    ensures var c := Chosen(rest, s, i, w, lo, n, caps);
      lo <= c <= n && Try(rest, s, i, w, lo, n, caps) == Search(rest, s, After(i, c, w), caps)
    decreases n
  {
    if Search(rest, s, After(i, n, w), caps).Fail? && n != lo {
      TryChosen(rest, s, i, w, lo, n - 1, caps);
    }
  }

  lemma {:induction false} ChosenIsGreatest(rest: Program, s: seq<letter>, i: nat, w: nat, lo: nat, n: nat,
                                            caps: Caps, m: nat)
    requires lo <= m <= n
    requires !Search(rest, s, After(i, m, w), caps).Fail?
    ensures m <= Chosen(rest, s, i, w, lo, n, caps)
    ensures !Try(rest, s, i, w, lo, n, caps).Fail?
    decreases n
  {
    if Search(rest, s, After(i, n, w), caps).Fail? && n != lo {
      ChosenIsGreatest(rest, s, i, w, lo, n - 1, caps, m);
    }
  }

  /** A search that does not fail is the run under the counts it settled on. */
  lemma {:induction false} SearchIsRun(prog: Program, s: seq<letter>, i: nat, caps: Caps)
    requires i <= |s|
    requires !Search(prog, s, i, caps).Fail?
    ensures Run(prog, s, i, caps, Choice(prog, s, i, caps)) == Search(prog, s, i, caps)
    decreases |prog|
  {
    if prog != [] {
      var ins, rest := prog[0], prog[1..];
      if !IsRepeat(ins) {
        MoveFits(ins, s, i, caps);
        var go := Move(ins, s, i, caps);
        SearchIsRun(rest, s, go.pos, go.caps);
      } else if !IsEndless(ins, s, caps) {
        var lo, n, w := Fewest(ins), Greatest(ins, s, i, caps), Stride(ins, s, caps);
        var c := Chosen(rest, s, i, w, lo, n, caps);
        TryChosen(rest, s, i, w, lo, n, caps);
        RepeatCounts(ins, s, i, caps, c);
        SearchIsRun(rest, s, After(i, c, w), caps);
      }
    }
  }

  /** Every choice that does not fail is found, or passed over for a greater one. */
  lemma {:induction false} SearchIsGreediest(prog: Program, s: seq<letter>, i: nat, caps: Caps, counts: seq<nat>)
    requires i <= |s|
    requires !Run(prog, s, i, caps, counts).Fail?
    ensures !Search(prog, s, i, caps).Fail?
    ensures LexLe(counts, Choice(prog, s, i, caps))
    decreases |prog|
  {
    if prog != [] {
      var ins, rest := prog[0], prog[1..];
      if !IsRepeat(ins) {
        MoveFits(ins, s, i, caps);
        var go := Move(ins, s, i, caps);
        SearchIsGreediest(rest, s, go.pos, go.caps, counts);
      } else if !IsEndless(ins, s, caps) {
        var m, w := counts[0], Stride(ins, s, caps);
        RepeatCounts(ins, s, i, caps, m);
        SearchIsGreediest(rest, s, After(i, m, w), caps, counts[1..]);
        ChosenIsGreatest(rest, s, i, w, Fewest(ins), Greatest(ins, s, i, caps), caps, m);
      }
    }
  }
}
