/** From syntax trees to programs: a compiled tree runs as the tree means. */
module RegexpMeaning {
  import opened RegexpBits
  import opened RegexpTree
  import opened RegexpCode
  import opened RegexpSearch

  /** The tree in the order its elements are written, groups as bracketing pairs. */
  function Flatten(t: Tree): seq<Instr<Class>> {
    match t
    case Empty => []
    case Atom(cls, rep, next) => [Single(cls, rep)] + Flatten(next)
    case Eol(next) => [Dol] + Flatten(next)
    case Group(k, body, next) => [Bra(k)] + Flatten(body) + [Ket(k)] + Flatten(next)
    case Ref(k, next) => [Back(k)] + Flatten(next)
    case RefStar(k, next) => [BackStar(k)] + Flatten(next)
  }

  function LowerInstr(ins: Instr<Class>): Instr<Cell> {
    match ins
    case Single(cls, rep) => Single(Lower(cls), rep)
    case Dol => Dol
    case Bra(k) => Bra(k)
    case Ket(k) => Ket(k)
    case Back(k) => Back(k)
    case BackStar(k) => BackStar(k)
    case Patched(inner, rep) => Patched(LowerInstr(inner), rep)
  }

  function LowerAll(items: seq<Instr<Class>>): (prog: Program)
    ensures |prog| == |items|
  {
    seq(|items|, i requires 0 <= i < |items| => LowerInstr(items[i]))
  }

  function Compiled(t: Tree): Program {
    LowerAll(Flatten(t))
  }

  lemma {:induction false} LowerAllConcat(a: seq<Instr<Class>>, b: seq<Instr<Class>>)
    ensures LowerAll(a + b) == LowerAll(a) + LowerAll(b)
  {}

  lemma {:induction false} CompiledCons(ins: Instr<Class>, next: Tree, rest: Program)
    ensures LowerAll([ins] + Flatten(next)) + rest == [LowerInstr(ins)] + (Compiled(next) + rest)
  {
    LowerAllConcat([ins], Flatten(next));
    assert LowerAll([ins]) == [LowerInstr(ins)];
  }

  lemma {:induction false} CompiledGroup(k: nat, body: Tree, next: Tree, rest: Program)
    ensures Compiled(Group(k, body, next)) + rest
         == [Bra(k)] + (Compiled(body) + ([Ket(k)] + (Compiled(next) + rest)))
  {
    LowerAllConcat([Bra(k)] + Flatten(body) + [Ket(k)], Flatten(next));
    LowerAllConcat([Bra(k)] + Flatten(body), [Ket(k)]);
    LowerAllConcat([Bra(k)], Flatten(body));
    assert LowerAll([Bra(k)]) == [Bra(k)];
    assert LowerAll([Ket(k)]) == [Ket(k)];
  }

  lemma {:induction false} AllInPasses(cls: Class, s: seq<letter>, i: nat, n: nat)
    ensures AllIn(cls, s, i, n) <==> Passes(Lower(cls), s, i, n)
  {
    if i + n <= |s| {
      forall j | i <= j < i + n ensures ClassHas(cls, s[j]) <==> CellHas(Lower(cls), s[j]) {
        LowerExact(cls, s[j]);
      }
    }
  }

  /** What a path through a tree followed by a program comes to. */
  function Finish(path: Path, rest: Program, s: seq<letter>, open: seq<(nat, nat)>): Outcome {
    match path
    case Dead => Fail
    case Endless => Hang
    case At(j, spans, left) => Run(rest, s, j, Caps(open, spans), left)
  }

  lemma {:induction false} RunCons(ins: Instr<Cell>, rest: Program, s: seq<letter>, i: nat, caps: Caps,
                                   counts: seq<nat>)
    ensures ([ins] + rest)[1..] == rest
    ensures !IsRepeat(ins) && Move(ins, s, i, caps).Stuck? ==> Run([ins] + rest, s, i, caps, counts) == Fail
    ensures !IsRepeat(ins) && Move(ins, s, i, caps).Go? ==>
              var go := Move(ins, s, i, caps);
              Run([ins] + rest, s, i, caps, counts) == Run(rest, s, go.pos, go.caps, counts)
    ensures IsRepeat(ins) && IsEndless(ins, s, caps) ==>
              Run([ins] + rest, s, i, caps, counts) == if counts == [] then Hang else Fail
    ensures IsRepeat(ins) && !IsEndless(ins, s, caps) ==>
              Run([ins] + rest, s, i, caps, counts) ==
              if counts != [] && CanRepeat(ins, s, i, caps, counts[0])
              then Run(rest, s, After(i, counts[0], Stride(ins, s, caps)), caps, counts[1..]) else Fail
  {
    assert ([ins] + rest)[1..] == rest;
  }

  /** Compiling preserves meaning, under every choice of counts and before any program. */
  lemma {:induction false} RunTree(t: Tree, rest: Program, s: seq<letter>, i: nat, caps: Caps, counts: seq<nat>)
    ensures Run(Compiled(t) + rest, s, i, caps, counts)
         == Finish(Eval(t, s, i, caps.spans, counts), rest, s, caps.open)
    decreases t, 1
  {
    match t
    case Empty => assert Compiled(t) + rest == rest;
    case Atom(cls, rep, next) => RunAtom(cls, rep, next, rest, s, i, caps, counts);
    case Eol(next) =>
      CompiledCons(Dol, next, rest);
      RunCons(Dol, Compiled(next) + rest, s, i, caps, counts);
      RunTree(next, rest, s, i, caps, counts);
    case Group(k, body, next) => RunGroup(k, body, next, rest, s, i, caps, counts);
    case Ref(k, next) =>
      CompiledCons(Back(k), next, rest);
      RunCons(Back(k), Compiled(next) + rest, s, i, caps, counts);
      if Captured(s, caps.spans, k) {
        RunTree(next, rest, s, i + |Text(s, caps.spans, k)|, caps, counts);
      }
    case RefStar(k, next) => RunRefStar(k, next, rest, s, i, caps, counts);
  }

  /** A single-character element before a program, followed once or a given number of times. */
  lemma {:induction false} RunSingle(cls: Class, rep: Rep, rest: Program, s: seq<letter>, i: nat, caps: Caps,
                                     counts: seq<nat>)
    ensures var all := [Single(Lower(cls), rep)] + rest;
      Run(all, s, i, caps, counts) ==
      if rep.Once? then (if AllIn(cls, s, i, 1) then Run(rest, s, i + 1, caps, counts) else Fail)
      else if counts != [] && Allows(rep, counts[0]) && AllIn(cls, s, i, counts[0])
      then Run(rest, s, i + counts[0], caps, counts[1..]) else Fail
  {
    RunCons(Single(Lower(cls), rep), rest, s, i, caps, counts);
    if rep.Once? {
      AllInPasses(cls, s, i, 1);
    } else if counts != [] {
      AllInPasses(cls, s, i, counts[0]);
    }
  }

  lemma {:induction false} RunAtom(cls: Class, rep: Rep, next: Tree, rest: Program, s: seq<letter>, i: nat,
                                   caps: Caps, counts: seq<nat>)
    ensures Run(Compiled(Atom(cls, rep, next)) + rest, s, i, caps, counts)
         == Finish(Eval(Atom(cls, rep, next), s, i, caps.spans, counts), rest, s, caps.open)
    decreases Atom(cls, rep, next), 0
  {
    CompiledCons(Single(cls, rep), next, rest);
    RunSingle(cls, rep, Compiled(next) + rest, s, i, caps, counts);
    if rep.Once? {
      RunTree(next, rest, s, i + 1, caps, counts);
    } else if counts != [] {
      RunTree(next, rest, s, i + counts[0], caps, counts[1..]);
    }
  }

  lemma {:induction false} RunRefStar(k: nat, next: Tree, rest: Program, s: seq<letter>, i: nat,
                                      caps: Caps, counts: seq<nat>)
    ensures Run(Compiled(RefStar(k, next)) + rest, s, i, caps, counts)
         == Finish(Eval(RefStar(k, next), s, i, caps.spans, counts), rest, s, caps.open)
    decreases RefStar(k, next), 0
  {
    CompiledCons(BackStar(k), next, rest);
    RunCons(BackStar(k), Compiled(next) + rest, s, i, caps, counts);
    if Captured(s, caps.spans, k) && Text(s, caps.spans, k) != [] && counts != [] {
      RunTree(next, rest, s, After(i, counts[0], |Text(s, caps.spans, k)|), caps, counts[1..]);
    }
  }

  lemma {:induction false} RunGroup(k: nat, body: Tree, next: Tree, rest: Program, s: seq<letter>, i: nat,
                                    caps: Caps, counts: seq<nat>)
    ensures Run(Compiled(Group(k, body, next)) + rest, s, i, caps, counts)
         == Finish(Eval(Group(k, body, next), s, i, caps.spans, counts), rest, s, caps.open)
    decreases Group(k, body, next), 0
  {
    var after := Compiled(next) + rest;
    var inside := Compiled(body) + ([Ket(k)] + after);
    CompiledGroup(k, body, next, rest);
    RunCons(Bra(k), inside, s, i, caps, counts);
    RunTree(body, [Ket(k)] + after, s, i, Open(caps, k, i), counts);
    var path := Eval(body, s, i, caps.spans, counts);
    if path.At? {
      var mid := Caps([(k, i)] + caps.open, path.spans);
      RunCons(Ket(k), after, s, path.pos, mid, path.counts);
      assert Close(mid, path.pos) == Caps(caps.open, path.spans[k := (i, path.pos)]);
      RunTree(next, rest, s, path.pos, Close(mid, path.pos), path.counts);
    }
  }
}
