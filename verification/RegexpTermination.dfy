/**
 * When a search does not return.  A starred back-reference to an empty capture repeats for
 * ever; the patterns for which that can happen are decided from the tree alone.
 */
module RegexpTermination {
  import opened RegexpBits
  import opened RegexpTree
  import opened RegexpSearch
  import opened RegexpMeaning
  import opened RegexpMatcher
  import opened RegexpTheorems

  /** The least width captured by each group so far. */
  type Widths = map<nat, nat>

  /**
   * Blocked: nothing can match.  Clear: the least width of a match, the least widths of the
   * captures, and whether the subject must have ended.  Hits: the least width before a
   * starred back-reference whose group may be empty.
   */
  datatype Survey = Blocked | Clear(width: nat, widths: Widths, ended: bool) | Hits(width: nat)

  function LeastCount(rep: Rep): nat {
    match rep
    case Once => 1
    case Star => 0
    case Range(lo, _) => lo
  }

  predicate Matchable(cls: Class, rep: Rep) {
    Allows(rep, LeastCount(rep)) && (LeastCount(rep) == 0 || exists c: letter :: ClassHas(cls, c))
  }

  /** An element of width n, then the rest. */
  function Shift(n: nat, ended: bool, rest: Survey): Survey {
    if ended && n > 0 then Blocked
    else if rest.Blocked? then rest
    else rest.(width := n + rest.width)
  }

  function Look(t: Tree, ws: Widths, ended: bool): Survey
    decreases t
  {
    match t
    case Empty => Clear(0, ws, ended)
    case Atom(cls, rep, next) =>
      if Matchable(cls, rep) then Shift(LeastCount(rep), ended, Look(next, ws, ended)) else Blocked
    case Eol(next) => Look(next, ws, true)
    case Group(k, body, next) =>
      var inner := Look(body, ws, ended);
      if inner.Clear? then Shift(inner.width, ended, Look(next, inner.widths[k := inner.width], inner.ended))
      else inner
    case Ref(k, next) =>
      if k in ws then Shift(ws[k], ended, Look(next, ws, ended)) else Blocked
    case RefStar(k, next) =>
      if k !in ws then Blocked
      else if ws[k] == 0 then Hits(0)
      else Look(next, ws, ended)
  }

  /** Decidable from the pattern: some starred back-reference can meet an empty capture. */
  predicate CanHang(t: Tree) {
    Look(t, map[], false).Hits?
  }

  // ---- Every path is at least as wide as the survey says ----

  predicate AtLeast(s: seq<letter>, spans: Spans, ws: Widths) {
    spans.Keys == ws.Keys &&
    forall k :: k in spans ==> Captured(s, spans, k) && spans[k].1 - spans[k].0 >= ws[k]
  }

  predicate Exactly(s: seq<letter>, spans: Spans, ws: Widths) {
    spans.Keys == ws.Keys &&
    forall k :: k in spans ==> Captured(s, spans, k) && spans[k].1 - spans[k].0 == ws[k]
  }

  predicate Fits(s: seq<letter>, i: nat, ended: bool) {
    i <= |s| && (ended ==> i == |s|)
  }

  /** A path through a tree that ends at j is possible and no narrower than surveyed. */
  predicate Bounded(s: seq<letter>, i: nat, path: Path, look: Survey) {
    match path
    case Dead => true
    case Endless => look.Hits?
    case At(j, spans, _) =>
      && j <= |s| && !look.Blocked? && j - i >= look.width
      && (look.Clear? ==> AtLeast(s, spans, look.widths) && Fits(s, j, look.ended))
  }

  lemma {:induction false} PathBounded(t: Tree, s: seq<letter>, i: nat, spans: Spans, counts: seq<nat>,
                                       ws: Widths, ended: bool)
    requires AtLeast(s, spans, ws) && Fits(s, i, ended)
    ensures Bounded(s, i, Eval(t, s, i, spans, counts), Look(t, ws, ended))
    decreases t, -1
  {
    match t
    case Empty =>
    case Atom(cls, rep, next) => AtomBounded(cls, rep, next, s, i, spans, counts, ws, ended);
    case Eol(next) =>
      if i == |s| { PathBounded(next, s, i, spans, counts, ws, true); }
    case Group(k, body, next) =>
      PathBounded(body, s, i, spans, counts, ws, ended);
      var path, look := Eval(body, s, i, spans, counts), Look(body, ws, ended);
      if path.At? {
        if look.Clear? {
          PathBounded(next, s, path.pos, path.spans[k := (i, path.pos)], path.counts,
                      look.widths[k := look.width], look.ended);
        } else {
          PathForward(next, s, path.pos, path.spans[k := (i, path.pos)], path.counts);
        }
      }
    case Ref(k, next) =>
      if Captured(s, spans, k) && Copies(s, i, Text(s, spans, k), 1) {
        PathBounded(next, s, i + |Text(s, spans, k)|, spans, counts, ws, ended);
      }
    case RefStar(k, next) => RefStarBounded(k, next, s, i, spans, counts, ws, ended);
  }

  lemma {:induction false} AtomBounded(cls: Class, rep: Rep, next: Tree, s: seq<letter>, i: nat, spans: Spans,
                                       counts: seq<nat>, ws: Widths, ended: bool)
    requires AtLeast(s, spans, ws) && Fits(s, i, ended)
    ensures Bounded(s, i, Eval(Atom(cls, rep, next), s, i, spans, counts), Look(Atom(cls, rep, next), ws, ended))
    decreases next, 2
  {
    AtomEval(cls, rep, next, s, i, spans, counts);
    var path := Eval(Atom(cls, rep, next), s, i, spans, counts);
    if !path.Dead? {
      var n := if rep.Once? then 1 else counts[0];
      NextBounded(cls, rep, next, s, i, n, spans, if rep.Once? then counts else counts[1..], ws, ended);
    }
  }

  /** A path through an element that is not dead repeats it some number of times. */
  lemma {:induction false} AtomEval(cls: Class, rep: Rep, next: Tree, s: seq<letter>, i: nat, spans: Spans,
                                    counts: seq<nat>)
    ensures var path := Eval(Atom(cls, rep, next), s, i, spans, counts);
      !path.Dead? ==>
        && (rep.Once? || counts != [])
        && var n := if rep.Once? then 1 else counts[0];
           && Allows(rep, n) && AllIn(cls, s, i, n)
           && path == Eval(next, s, i + n, spans, if rep.Once? then counts else counts[1..])
  {
    if rep.Once? {
      assert Eval(Atom(cls, rep, next), s, i, spans, counts) ==
        if AllIn(cls, s, i, 1) then Eval(next, s, i + 1, spans, counts) else Dead;
    } else if counts != [] {
      assert Eval(Atom(cls, rep, next), s, i, spans, counts) ==
        if Allows(rep, counts[0]) && AllIn(cls, s, i, counts[0])
        then Eval(next, s, i + counts[0], spans, counts[1..]) else Dead;
    }
  }

  lemma {:induction false} NextBounded(cls: Class, rep: Rep, next: Tree, s: seq<letter>, i: nat, n: nat, spans: Spans,
                                       counts: seq<nat>, ws: Widths, ended: bool)
    requires AtLeast(s, spans, ws) && Fits(s, i, ended) && Allows(rep, n) && AllIn(cls, s, i, n)
    ensures Bounded(s, i, Eval(next, s, i + n, spans, counts), Look(Atom(cls, rep, next), ws, ended))
    decreases next, 1
  {
    UsedIsMatchable(cls, rep, s, i, n);
    PathBounded(next, s, i + n, spans, counts, ws, ended);
    ShiftBounded(s, i, n, LeastCount(rep), Eval(next, s, i + n, spans, counts), ended, Look(next, ws, ended));
  }

  /** An element of width n, at least the surveyed width, before a bounded path. */
  lemma {:induction false} ShiftBounded(s: seq<letter>, i: nat, n: nat, w: nat, path: Path, ended: bool, look: Survey)
    requires w <= n && i + n <= |s| && (ended ==> i == |s|) && Bounded(s, i + n, path, look)
    ensures Bounded(s, i, path, Shift(w, ended, look))
  {}

  lemma {:induction false} UsedIsMatchable(cls: Class, rep: Rep, s: seq<letter>, i: nat, n: nat)
    requires Allows(rep, n) && AllIn(cls, s, i, n)
    ensures Matchable(cls, rep) && LeastCount(rep) <= n
  {
    if LeastCount(rep) > 0 { assert ClassHas(cls, s[i]); }
  }

  /** A path through a starred reference that is neither dead nor endless repeats the capture. */
  lemma {:induction false} RefStarEval(k: nat, next: Tree, s: seq<letter>, i: nat, spans: Spans, counts: seq<nat>)
    ensures var path := Eval(RefStar(k, next), s, i, spans, counts);
      || path.Dead?
      || (path.Endless? && Captured(s, spans, k) && spans[k].0 == spans[k].1)
      || (&& Captured(s, spans, k) && counts != [] && Copies(s, i, Text(s, spans, k), counts[0])
          && path == Eval(next, s, After(i, counts[0], |Text(s, spans, k)|), spans, counts[1..]))
  {}

  lemma {:induction false} BoundedEarlier(s: seq<letter>, i: nat, j: nat, path: Path, look: Survey)
    requires i <= j && Bounded(s, j, path, look)
    ensures Bounded(s, i, path, look)
  {}

  lemma {:induction false} AfterForward(i: nat, n: nat, w: nat)
    ensures i <= After(i, n, w)
  {}

  lemma {:induction false} RefStarBounded(k: nat, next: Tree, s: seq<letter>, i: nat, spans: Spans,
                                          counts: seq<nat>, ws: Widths, ended: bool)
    requires AtLeast(s, spans, ws) && Fits(s, i, ended)
    ensures Bounded(s, i, Eval(RefStar(k, next), s, i, spans, counts), Look(RefStar(k, next), ws, ended))
    decreases next, 1
  {
    RefStarEval(k, next, s, i, spans, counts);
    if k in spans && counts != [] && Copies(s, i, Text(s, spans, k), counts[0]) {
      var n, w := counts[0], |Text(s, spans, k)|;
      CopiesFit(s, i, Text(s, spans, k), n);
      AfterForward(i, n, w);
      RepeatBounded(next, s, i, After(i, n, w), spans, counts[1..], ws, ended);
    }
  }

  /** After some copies, which end the subject if it had ended. */
  lemma {:induction false} RepeatBounded(next: Tree, s: seq<letter>, i: nat, j: nat, spans: Spans,
                                         counts: seq<nat>, ws: Widths, ended: bool)
    requires AtLeast(s, spans, ws) && Fits(s, i, ended) && i <= j <= |s|
    ensures Bounded(s, i, Eval(next, s, j, spans, counts), Look(next, ws, ended))
    ensures Eval(next, s, j, spans, counts).At? ==> i <= Eval(next, s, j, spans, counts).pos <= |s|
    decreases next, 0
  {
    PathBounded(next, s, j, spans, counts, ws, ended);
    BoundedEarlier(s, i, j, Eval(next, s, j, spans, counts), Look(next, ws, ended));
    PathForward(next, s, j, spans, counts);
  }

  /** A path through a reference that is not dead copies the capture. */
  lemma {:induction false} RefEval(k: nat, next: Tree, s: seq<letter>, i: nat, spans: Spans, counts: seq<nat>)
    ensures var path := Eval(Ref(k, next), s, i, spans, counts);
      path.Dead? ||
      (&& Captured(s, spans, k) && i + |Text(s, spans, k)| <= |s|
       && path == Eval(next, s, i + |Text(s, spans, k)|, spans, counts))
  {}

  /** A path never moves left or off the subject. */
  lemma {:induction false} PathForward(t: Tree, s: seq<letter>, i: nat, spans: Spans, counts: seq<nat>)
    requires i <= |s|
    ensures var path := Eval(t, s, i, spans, counts); path.At? ==> i <= path.pos <= |s|
    decreases t, 0
  {
    match t
    case Empty =>
    case Atom(cls, rep, next) => AtomForward(cls, rep, next, s, i, spans, counts);
    case Eol(next) => PathForward(next, s, i, spans, counts);
    case Group(k, body, next) =>
      PathForward(body, s, i, spans, counts);
      var path := Eval(body, s, i, spans, counts);
      if path.At? { PathForward(next, s, path.pos, path.spans[k := (i, path.pos)], path.counts); }
    case Ref(k, next) => RefForward(k, next, s, i, spans, counts);
    case RefStar(k, next) => RefStarForward(k, next, s, i, spans, counts);
  }

  lemma {:induction false} AtomForward(cls: Class, rep: Rep, next: Tree, s: seq<letter>, i: nat, spans: Spans,
                                       counts: seq<nat>)
    requires i <= |s|
    ensures var path := Eval(Atom(cls, rep, next), s, i, spans, counts); path.At? ==> i <= path.pos <= |s|
    decreases next, 1
  {
    AtomEval(cls, rep, next, s, i, spans, counts);
    if !Eval(Atom(cls, rep, next), s, i, spans, counts).Dead? {
      var n := if rep.Once? then 1 else counts[0];
      PathForward(next, s, i + n, spans, if rep.Once? then counts else counts[1..]);
    }
  }

  lemma {:induction false} RefForward(k: nat, next: Tree, s: seq<letter>, i: nat, spans: Spans, counts: seq<nat>)
    requires i <= |s|
    ensures var path := Eval(Ref(k, next), s, i, spans, counts); path.At? ==> i <= path.pos <= |s|
    decreases next, 1
  {
    RefEval(k, next, s, i, spans, counts);
    if !Eval(Ref(k, next), s, i, spans, counts).Dead? {
      PathForward(next, s, i + |Text(s, spans, k)|, spans, counts);
    }
  }

  lemma {:induction false} RefStarForward(k: nat, next: Tree, s: seq<letter>, i: nat, spans: Spans, counts: seq<nat>)
    requires i <= |s|
    ensures var path := Eval(RefStar(k, next), s, i, spans, counts); path.At? ==> i <= path.pos <= |s|
    decreases next, 1
  {
    RefStarEval(k, next, s, i, spans, counts);
    if Captured(s, spans, k) && counts != [] && Copies(s, i, Text(s, spans, k), counts[0]) {
      CopiesFit(s, i, Text(s, spans, k), counts[0]);
      AfterForward(i, counts[0], |Text(s, spans, k)|);
      PathForward(next, s, After(i, counts[0], |Text(s, spans, k)|), spans, counts[1..]);
    }
  }

  // ---- The narrowest path cannot get past a possibly empty starred back-reference ----

  predicate Tight(s: seq<letter>, i: nat, path: Path, look: Survey) {
    path.At? ==>
      && (look.Clear? && path.pos - i == look.width ==> Exactly(s, path.spans, look.widths))
      && (look.Hits? ==> path.pos - i > look.width)
  }

  lemma {:induction false} PathTight(t: Tree, s: seq<letter>, i: nat, spans: Spans, counts: seq<nat>,
                                     ws: Widths, ended: bool)
    requires Exactly(s, spans, ws) && Fits(s, i, ended)
    ensures Tight(s, i, Eval(t, s, i, spans, counts), Look(t, ws, ended))
    decreases t, 0
  {
    match t
    case Empty =>
    case Atom(cls, rep, next) => AtomTight(cls, rep, next, s, i, spans, counts, ws, ended);
    case Eol(next) =>
      if i == |s| { PathTight(next, s, i, spans, counts, ws, true); }
    case Group(k, body, next) => GroupTight(k, body, next, s, i, spans, counts, ws, ended);
    case Ref(k, next) => RefTight(k, next, s, i, spans, counts, ws, ended);
    case RefStar(k, next) => RefStarTight(k, next, s, i, spans, counts, ws, ended);
  }

  lemma {:induction false} RefTight(k: nat, next: Tree, s: seq<letter>, i: nat, spans: Spans, counts: seq<nat>,
                                    ws: Widths, ended: bool)
    requires Exactly(s, spans, ws) && Fits(s, i, ended)
    ensures Tight(s, i, Eval(Ref(k, next), s, i, spans, counts), Look(Ref(k, next), ws, ended))
    decreases next, 1
  {
    RefEval(k, next, s, i, spans, counts);
    if !Eval(Ref(k, next), s, i, spans, counts).Dead? {
      var n := |Text(s, spans, k)|;
      PathBounded(next, s, i + n, spans, counts, ws, ended);
      PathTight(next, s, i + n, spans, counts, ws, ended);
      ShiftTight(s, i, n, ws[k], Eval(next, s, i + n, spans, counts), ended, Look(next, ws, ended));
    }
  }

  lemma {:induction false} RefStarTight(k: nat, next: Tree, s: seq<letter>, i: nat, spans: Spans, counts: seq<nat>,
                                        ws: Widths, ended: bool)
    requires Exactly(s, spans, ws) && Fits(s, i, ended)
    ensures Tight(s, i, Eval(RefStar(k, next), s, i, spans, counts), Look(RefStar(k, next), ws, ended))
    decreases next, 1
  {
    RefStarEval(k, next, s, i, spans, counts);
    if k in spans && Text(s, spans, k) != [] && Eval(RefStar(k, next), s, i, spans, counts).At? {
      var j := After(i, counts[0], |Text(s, spans, k)|);
      CopiesFit(s, i, Text(s, spans, k), counts[0]);
      AfterForward(i, counts[0], |Text(s, spans, k)|);
      PathBounded(next, s, j, spans, counts[1..], ws, ended);
      PathTight(next, s, j, spans, counts[1..], ws, ended);
      LaterTight(s, i, j, Eval(next, s, j, spans, counts[1..]), Look(next, ws, ended));
    }
  }

  lemma {:induction false} LaterTight(s: seq<letter>, i: nat, j: nat, path: Path, look: Survey)
    requires i <= j && Tight(s, j, path, look) && Bounded(s, j, path, look)
    ensures Tight(s, i, path, look)
  {}

  lemma {:induction false} AtomTight(cls: Class, rep: Rep, next: Tree, s: seq<letter>, i: nat, spans: Spans,
                                     counts: seq<nat>, ws: Widths, ended: bool)
    requires Exactly(s, spans, ws) && Fits(s, i, ended)
    ensures Tight(s, i, Eval(Atom(cls, rep, next), s, i, spans, counts), Look(Atom(cls, rep, next), ws, ended))
    decreases next, 2
  {
    AtomEval(cls, rep, next, s, i, spans, counts);
    if !Eval(Atom(cls, rep, next), s, i, spans, counts).Dead? {
      var n, left := if rep.Once? then 1 else counts[0], if rep.Once? then counts else counts[1..];
      NextTight(cls, rep, next, s, i, n, spans, left, ws, ended);
    }
  }

  lemma {:induction false} NextTight(cls: Class, rep: Rep, next: Tree, s: seq<letter>, i: nat, n: nat, spans: Spans,
                                     counts: seq<nat>, ws: Widths, ended: bool)
    requires Exactly(s, spans, ws) && Fits(s, i, ended) && Allows(rep, n) && AllIn(cls, s, i, n)
    ensures Tight(s, i, Eval(next, s, i + n, spans, counts), Look(Atom(cls, rep, next), ws, ended))
    decreases next, 1
  {
    UsedIsMatchable(cls, rep, s, i, n);
    PathBounded(next, s, i + n, spans, counts, ws, ended);
    PathTight(next, s, i + n, spans, counts, ws, ended);
    ShiftTight(s, i, n, LeastCount(rep), Eval(next, s, i + n, spans, counts), ended, Look(next, ws, ended));
  }

  lemma {:induction false} ShiftTight(s: seq<letter>, i: nat, n: nat, w: nat, path: Path, ended: bool, look: Survey)
    requires w <= n && Tight(s, i + n, path, look) && Bounded(s, i + n, path, look)
    ensures Tight(s, i, path, Shift(w, ended, look))
  {}

  lemma {:induction false} GroupTight(k: nat, body: Tree, next: Tree, s: seq<letter>, i: nat, spans: Spans,
                                      counts: seq<nat>, ws: Widths, ended: bool)
    requires Exactly(s, spans, ws) && Fits(s, i, ended)
    ensures Tight(s, i, Eval(Group(k, body, next), s, i, spans, counts), Look(Group(k, body, next), ws, ended))
    decreases Group(k, body, next), -1
  {
    PathBounded(body, s, i, spans, counts, ws, ended);
    PathTight(body, s, i, spans, counts, ws, ended);
    var path, look := Eval(body, s, i, spans, counts), Look(body, ws, ended);
    if path.At? {
      var after := path.spans[k := (i, path.pos)];
      PathForward(next, s, path.pos, after, path.counts);
      if look.Clear? {
        var ws' := look.widths[k := look.width];
        PathBounded(next, s, path.pos, after, path.counts, ws', look.ended);
        if path.pos - i == look.width { PathTight(next, s, path.pos, after, path.counts, ws', look.ended); }
      }
    }
  }

  // ---- A subject on which the narrowest path exists ----

  /** Captured texts by group number. */
  type Texts = map<nat, seq<letter>>

  ghost function Pick(cls: Class): (c: letter)
    requires exists c: letter :: ClassHas(cls, c)
    ensures ClassHas(cls, c)
  {
    var c: letter :| ClassHas(cls, c); c
  }

  ghost function Repeated(cls: Class, rep: Rep): seq<letter>
    requires Matchable(cls, rep)
  {
    if LeastCount(rep) == 0 then [] else seq(LeastCount(rep), _ => Pick(cls))
  }

  /** The narrowest text, up to a hazard if there is one, and the captures. */
  datatype Sample = Sample(text: seq<letter>, texts: Texts)

  ghost function Before(text: seq<letter>, rest: Sample): Sample {
    Sample(text + rest.text, rest.texts)
  }

  ghost function Narrowest(t: Tree, texts: Texts, ended: bool): Sample
    decreases t
  {
    match t
    case Empty => Sample([], texts)
    case Atom(cls, rep, next) =>
      if Matchable(cls, rep) then Before(Repeated(cls, rep), Narrowest(next, texts, ended)) else Sample([], texts)
    case Eol(next) => Narrowest(next, texts, true)
    case Group(k, body, next) =>
      var inner := Narrowest(body, texts, ended);
      var look := Look(body, Lengths(texts), ended);
      if look.Clear? then Before(inner.text, Narrowest(next, inner.texts[k := inner.text], look.ended)) else inner
    case Ref(k, next) =>
      if k in texts then Before(texts[k], Narrowest(next, texts, ended)) else Sample([], texts)
    case RefStar(k, next) =>
      if k !in texts || texts[k] == [] then Sample([], texts) else Narrowest(next, texts, ended)
  }

  /** The counts that read the sample, before the counts of what follows. */
  ghost function Fewest(t: Tree, texts: Texts, ended: bool, more: seq<nat>): seq<nat>
    decreases t
  {
    match t
    case Empty => more
    case Atom(cls, rep, next) =>
      if rep.Once? then Fewest(next, texts, ended, more)
      else [LeastCount(rep)] + Fewest(next, texts, ended, more)
    case Eol(next) => Fewest(next, texts, true, more)
    case Group(k, body, next) =>
      var inner := Narrowest(body, texts, ended);
      var look := Look(body, Lengths(texts), ended);
      if look.Clear? then
        Fewest(body, texts, ended, Fewest(next, inner.texts[k := inner.text], look.ended, more))
      else Fewest(body, texts, ended, more)
    case Ref(k, next) => Fewest(next, texts, ended, more)
    case RefStar(k, next) =>
      if k !in texts || texts[k] == [] then [] else [0] + Fewest(next, texts, ended, more)
  }

  function Lengths(texts: Texts): Widths {
    map k | k in texts :: |texts[k]|
  }

  predicate Captures(s: seq<letter>, spans: Spans, texts: Texts) {
    spans.Keys == texts.Keys && forall k :: k in spans ==> Captured(s, spans, k) && Text(s, spans, k) == texts[k]
  }

  predicate TextAt(s: seq<letter>, i: nat, text: seq<letter>) {
    i + |text| <= |s| && s[i..i + |text|] == text
  }

  /** The sample is as wide as surveyed, and its captures are. */
  lemma {:induction false} NarrowestWidth(t: Tree, texts: Texts, ended: bool)
    ensures var look, sample := Look(t, Lengths(texts), ended), Narrowest(t, texts, ended);
      && (!look.Blocked? ==> |sample.text| == look.width)
      && (look.Clear? ==> Lengths(sample.texts) == look.widths)
    decreases t
  {
    match t
    case Empty =>
    case Atom(cls, rep, next) => NarrowestWidth(next, texts, ended);
    case Eol(next) => NarrowestWidth(next, texts, true);
    case Group(k, body, next) =>
      NarrowestWidth(body, texts, ended);
      var look, inner := Look(body, Lengths(texts), ended), Narrowest(body, texts, ended);
      if look.Clear? {
        assert Lengths(inner.texts[k := inner.text]) == look.widths[k := look.width];
        NarrowestWidth(next, inner.texts[k := inner.text], look.ended);
      }
    case Ref(k, next) => NarrowestWidth(next, texts, ended);
    case RefStar(k, next) => NarrowestWidth(next, texts, ended);
  }

  /** Once the subject must have ended, nothing more is read. */
  lemma {:induction false} EndedWidth(t: Tree, ws: Widths)
    ensures var look := Look(t, ws, true); !look.Blocked? ==> look.width == 0 && (look.Clear? ==> look.ended)
    decreases t
  {
    match t
    case Empty =>
    case Atom(cls, rep, next) => EndedWidth(next, ws);
    case Eol(next) => EndedWidth(next, ws);
    case Group(k, body, next) =>
      EndedWidth(body, ws);
      var look := Look(body, ws, true);
      if look.Clear? { EndedWidth(next, look.widths[k := look.width]); }
    case Ref(k, next) => EndedWidth(next, ws);
    case RefStar(k, next) => EndedWidth(next, ws);
  }

  /** The sample stands at i, and the subject ends where it must. */
  predicate Stands(look: Survey, sample: Sample, s: seq<letter>, i: nat) {
    && !look.Blocked? && TextAt(s, i, sample.text)
    && (look.Hits? || look.ended ==> i + |sample.text| == |s|)
  }

  predicate Reads(look: Survey, sample: Sample, s: seq<letter>, i: nat, more: seq<nat>, path: Path) {
    if look.Hits? then path.Endless?
    else path.At? && path.pos == i + |sample.text| && path.counts == more && Captures(s, path.spans, sample.texts)
  }

  lemma {:induction false} TextAtSplit(s: seq<letter>, i: nat, a: seq<letter>, b: seq<letter>)
    requires TextAt(s, i, a + b)
    ensures TextAt(s, i, a) && TextAt(s, i + |a|, b)
  {
    var here := s[i..i + |a + b|];
    assert s[i..i + |a|] == here[..|a|];
    assert s[i + |a|..i + |a| + |b|] == here[|a|..];
  }

  lemma {:induction false} SampleReads(t: Tree, texts: Texts, ended: bool, s: seq<letter>, i: nat, spans: Spans,
                                       more: seq<nat>)
    requires Captures(s, spans, texts) && Fits(s, i, ended)
    requires Stands(Look(t, Lengths(texts), ended), Narrowest(t, texts, ended), s, i)
    ensures Reads(Look(t, Lengths(texts), ended), Narrowest(t, texts, ended), s, i, more,
                  Eval(t, s, i, spans, Fewest(t, texts, ended, more)))
    decreases t, 1
  {
    match t
    case Empty =>
    case Atom(cls, rep, next) => AtomReads(cls, rep, next, texts, ended, s, i, spans, more);
    case Eol(next) =>
      EndedWidth(next, Lengths(texts));
      NarrowestWidth(next, texts, true);
      SampleReads(next, texts, true, s, i, spans, more);
    case Group(k, body, next) =>
      if Look(body, Lengths(texts), ended).Clear? {
        GroupReads(k, body, next, texts, ended, s, i, spans, more);
      } else {
        SampleReads(body, texts, ended, s, i, spans, more);
      }
    case Ref(k, next) => RefReads(k, next, texts, ended, s, i, spans, more);
    case RefStar(k, next) =>
      if texts[k] != [] {
        SampleReads(next, texts, ended, s, i, spans, more);
        assert ([0] + Fewest(next, texts, ended, more))[1..] == Fewest(next, texts, ended, more);
      }
  }

  lemma {:induction false} RefReads(k: nat, next: Tree, texts: Texts, ended: bool,
                                    s: seq<letter>, i: nat, spans: Spans, more: seq<nat>)
    requires Captures(s, spans, texts) && Fits(s, i, ended)
    requires Stands(Look(Ref(k, next), Lengths(texts), ended), Narrowest(Ref(k, next), texts, ended), s, i)
    ensures Reads(Look(Ref(k, next), Lengths(texts), ended), Narrowest(Ref(k, next), texts, ended),
                  s, i, more, Eval(Ref(k, next), s, i, spans, Fewest(Ref(k, next), texts, ended, more)))
    decreases Ref(k, next), 0
  {
    TextAtSplit(s, i, texts[k], Narrowest(next, texts, ended).text);
    assert Text(s, spans, k) == texts[k];
    SampleReads(next, texts, ended, s, i + |texts[k]|, spans, more);
  }

  lemma {:induction false} AtomReads(cls: Class, rep: Rep, next: Tree, texts: Texts, ended: bool,
                                     s: seq<letter>, i: nat, spans: Spans, more: seq<nat>)
    requires Captures(s, spans, texts) && Fits(s, i, ended)
    requires Stands(Look(Atom(cls, rep, next), Lengths(texts), ended), Narrowest(Atom(cls, rep, next), texts, ended),
                    s, i)
    ensures Reads(Look(Atom(cls, rep, next), Lengths(texts), ended), Narrowest(Atom(cls, rep, next), texts, ended),
                  s, i, more, Eval(Atom(cls, rep, next), s, i, spans, Fewest(Atom(cls, rep, next), texts, ended, more)))
    decreases Atom(cls, rep, next), 0
  {
    AtomStands(cls, rep, next, texts, ended, s, i);
    SampleReads(next, texts, ended, s, i + LeastCount(rep), spans, more);
    if !rep.Once? { ReadCount(cls, rep, next, s, i, spans, LeastCount(rep), Fewest(next, texts, ended, more)); }
  }

  lemma {:induction false} AtomStands(cls: Class, rep: Rep, next: Tree, texts: Texts, ended: bool, s: seq<letter>,
                                      i: nat)
    requires Fits(s, i, ended)
    requires Stands(Look(Atom(cls, rep, next), Lengths(texts), ended), Narrowest(Atom(cls, rep, next), texts, ended),
                    s, i)
    ensures Matchable(cls, rep) && AllIn(cls, s, i, LeastCount(rep)) && Fits(s, i + LeastCount(rep), ended)
    ensures Stands(Look(next, Lengths(texts), ended), Narrowest(next, texts, ended), s, i + LeastCount(rep))
    ensures |Narrowest(Atom(cls, rep, next), texts, ended).text| ==
        LeastCount(rep) + |Narrowest(next, texts, ended).text|
  {
    TextAtSplit(s, i, Repeated(cls, rep), Narrowest(next, texts, ended).text);
    RepeatedIsIn(cls, rep, s, i);
  }

  lemma {:induction false} RepeatedIsIn(cls: Class, rep: Rep, s: seq<letter>, i: nat)
    requires Matchable(cls, rep) && TextAt(s, i, Repeated(cls, rep))
    ensures |Repeated(cls, rep)| == LeastCount(rep) && AllIn(cls, s, i, LeastCount(rep))
  {
    var own := Repeated(cls, rep);
    forall j | i <= j < i + |own| ensures ClassHas(cls, s[j]) { assert s[i..i + |own|][j - i] == own[j - i]; }
  }

  lemma {:induction false} ReadCount(cls: Class, rep: Rep, next: Tree, s: seq<letter>, i: nat, spans: Spans, n: nat,
                                     more: seq<nat>)
    requires !rep.Once? && Allows(rep, n) && AllIn(cls, s, i, n)
    ensures Eval(Atom(cls, rep, next), s, i, spans, [n] + more) == Eval(next, s, i + n, spans, more)
  {
    assert ([n] + more)[1..] == more;
  }

  lemma {:induction false} CapturesAdd(s: seq<letter>, spans: Spans, texts: Texts, k: nat, i: nat, text: seq<letter>)
    requires Captures(s, spans, texts) && TextAt(s, i, text)
    ensures Captures(s, spans[k := (i, i + |text|)], texts[k := text])
  {}

  /** The texts captured, and the subject position, after the body of a group. */
  ghost function TextsAfter(k: nat, body: Tree, texts: Texts, ended: bool): Texts {
    var inner := Narrowest(body, texts, ended);
    inner.texts[k := inner.text]
  }

  lemma {:induction false} BodyReads(k: nat, body: Tree, texts: Texts, ended: bool,
                                     s: seq<letter>, i: nat, spans: Spans, more: seq<nat>)
    requires Captures(s, spans, texts) && Fits(s, i, ended)
    requires Look(body, Lengths(texts), ended).Clear?
    requires Stands(Look(body, Lengths(texts), ended), Narrowest(body, texts, ended), s, i)
    ensures var path := Eval(body, s, i, spans, Fewest(body, texts, ended, more));
      && path.At? && path.pos == i + |Narrowest(body, texts, ended).text| && path.counts == more
      && Captures(s, path.spans[k := (i, path.pos)], TextsAfter(k, body, texts, ended))
    decreases body, 2
  {
    SampleReads(body, texts, ended, s, i, spans, more);
    var path := Eval(body, s, i, spans, Fewest(body, texts, ended, more));
    CapturesAdd(s, path.spans, Narrowest(body, texts, ended).texts, k, i, Narrowest(body, texts, ended).text);
  }

  lemma {:induction false} GroupReads(k: nat, body: Tree, next: Tree, texts: Texts, ended: bool,
                                      s: seq<letter>, i: nat, spans: Spans, more: seq<nat>)
    requires Captures(s, spans, texts) && Fits(s, i, ended)
    requires Look(body, Lengths(texts), ended).Clear?
    requires Stands(Look(Group(k, body, next), Lengths(texts), ended), Narrowest(Group(k, body, next), texts, ended),
                    s, i)
    ensures Reads(Look(Group(k, body, next), Lengths(texts), ended), Narrowest(Group(k, body, next), texts, ended),
                  s, i, more, Eval(Group(k, body, next), s, i, spans, Fewest(Group(k, body, next), texts, ended, more)))
    decreases Group(k, body, next), 0
  {
    LookAfter(k, body, next, texts, ended);
    GroupStands(k, body, next, texts, ended, s, i);
    var end, text := Look(body, Lengths(texts), ended).ended, Narrowest(body, texts, ended).text;
    var texts' := TextsAfter(k, body, texts, ended);
    var after := Fewest(next, texts', end, more);
    var spans' := GroupGoesOn(k, body, next, texts, ended, s, i, spans, more);
    SampleReads(next, texts', end, s, i + |text|, spans', more);
    GroupSample(k, body, next, texts, ended);
    ReadsBefore(Look(next, Lengths(texts'), end), Narrowest(next, texts', end), s, i, text, ended, more,
                Eval(next, s, i + |text|, spans', after), Look(Group(k, body, next), Lengths(texts), ended),
                Narrowest(Group(k, body, next), texts, ended));
  }

  lemma {:induction false} GroupSample(k: nat, body: Tree, next: Tree, texts: Texts, ended: bool)
    requires Look(body, Lengths(texts), ended).Clear?
    ensures Narrowest(Group(k, body, next), texts, ended) ==
            Before(Narrowest(body, texts, ended).text,
                   Narrowest(next, TextsAfter(k, body, texts, ended), Look(body, Lengths(texts), ended).ended))
  {}

  /** After the body, what follows is read with the captures so far. */
  lemma {:induction false} GroupGoesOn(k: nat, body: Tree, next: Tree, texts: Texts, ended: bool,
                                       s: seq<letter>, i: nat, spans: Spans, more: seq<nat>) returns (spans': Spans)
    requires Captures(s, spans, texts) && Fits(s, i, ended)
    requires Look(body, Lengths(texts), ended).Clear?
    requires Stands(Look(body, Lengths(texts), ended), Narrowest(body, texts, ended), s, i)
    ensures Captures(s, spans', TextsAfter(k, body, texts, ended))
    ensures Eval(Group(k, body, next), s, i, spans, Fewest(Group(k, body, next), texts, ended, more)) ==
            Eval(next, s, i + |Narrowest(body, texts, ended).text|, spans',
                 Fewest(next, TextsAfter(k, body, texts, ended), Look(body, Lengths(texts), ended).ended, more))
    decreases body, 3
  {
    var after := Fewest(next, TextsAfter(k, body, texts, ended), Look(body, Lengths(texts), ended).ended, more);
    BodyReads(k, body, texts, ended, s, i, spans, after);
    GroupEval(k, body, next, texts, ended, s, i, spans, more);
    var path := Eval(body, s, i, spans, Fewest(body, texts, ended, after));
    spans' := path.spans[k := (i, path.pos)];
  }

  /** Reading a text, and then what follows it. */
  lemma {:induction false} ReadsBefore(look: Survey, sample: Sample, s: seq<letter>, i: nat, text: seq<letter>,
                                       ended: bool, more: seq<nat>, path: Path, whole: Survey, all: Sample)
    requires Reads(look, sample, s, i + |text|, more, path)
    requires whole == Shift(|text|, ended, look) && !whole.Blocked? && all == Before(text, sample)
    ensures Reads(whole, all, s, i, more, path)
  {}

  lemma {:induction false} GroupEval(k: nat, body: Tree, next: Tree, texts: Texts, ended: bool,
                                     s: seq<letter>, i: nat, spans: Spans, more: seq<nat>)
    requires Look(body, Lengths(texts), ended).Clear?
    ensures var after := Fewest(next, TextsAfter(k, body, texts, ended), Look(body, Lengths(texts), ended).ended, more);
      var path := Eval(body, s, i, spans, Fewest(body, texts, ended, after));
      path.At? && path.counts == after ==>
        Eval(Group(k, body, next), s, i, spans, Fewest(Group(k, body, next), texts, ended, more))
        == Eval(next, s, path.pos, path.spans[k := (i, path.pos)], after)
  {}

  lemma {:induction false} LookAfter(k: nat, body: Tree, next: Tree, texts: Texts, ended: bool)
    requires Look(body, Lengths(texts), ended).Clear?
    ensures var look := Look(body, Lengths(texts), ended);
      && |Narrowest(body, texts, ended).text| == look.width
      && Look(Group(k, body, next), Lengths(texts), ended) ==
         Shift(look.width, ended, Look(next, Lengths(TextsAfter(k, body, texts, ended)), look.ended))
  {
    NarrowestWidth(body, texts, ended);
    var look := Look(body, Lengths(texts), ended);
    assert Lengths(TextsAfter(k, body, texts, ended)) == look.widths[k := look.width];
  }

  lemma {:induction false} GroupStands(k: nat, body: Tree, next: Tree, texts: Texts, ended: bool, s: seq<letter>,
                                       i: nat)
    requires Look(body, Lengths(texts), ended).Clear?
    requires Stands(Look(Group(k, body, next), Lengths(texts), ended), Narrowest(Group(k, body, next), texts, ended),
                    s, i)
    ensures Stands(Look(body, Lengths(texts), ended), Narrowest(body, texts, ended), s, i)
    ensures var look, texts' := Look(body, Lengths(texts), ended), TextsAfter(k, body, texts, ended);
      var j, rest := i + |Narrowest(body, texts, ended).text|, Narrowest(next, texts', look.ended);
      && Fits(s, j, look.ended)
      && Stands(Look(next, Lengths(texts'), look.ended), rest, s, j)
      && j + |rest.text| == i + |Narrowest(Group(k, body, next), texts, ended).text|
  {
    LookAfter(k, body, next, texts, ended);
    NextStands(next, TextsAfter(k, body, texts, ended), Look(body, Lengths(texts), ended).ended, s, i,
               Narrowest(body, texts, ended).text);
  }

  /** If what a group reads and what follows stand together, they stand one after the other. */
  lemma {:induction false} NextStands(next: Tree, texts: Texts, ended: bool, s: seq<letter>, i: nat, text: seq<letter>)
    requires Stands(Shift(|text|, false, Look(next, Lengths(texts), ended)),
                    Before(text, Narrowest(next, texts, ended)), s, i)
    ensures TextAt(s, i, text) && Fits(s, i + |text|, ended)
    ensures Stands(Look(next, Lengths(texts), ended), Narrowest(next, texts, ended), s, i + |text|)
  {
    TextAtSplit(s, i, text, Narrowest(next, texts, ended).text);
    NarrowestWidth(next, texts, ended);
    EndedWidth(next, Lengths(texts));
  }

  /** A search fails to return on some subject exactly when the tree says it can. */
  lemma {:induction false} HangsExactly(t: Tree)
    ensures (exists s: seq<letter>, i: nat :: i <= |s| && Search(Compiled(t), s, i, NoCaps).Hang?) <==> CanHang(t)
  {
    if s: seq<letter>, i: nat :| i <= |s| && Search(Compiled(t), s, i, NoCaps).Hang? {
      SearchMeaning(t, s, i);
      PathBounded(t, s, i, map[], Counts(t, s, i), map[], false);
    }
    if CanHang(t) { HangsOnSample(t); }
  }

  /** Anchored or not, some subject gets no answer exactly when the tree says so. */
  lemma {:induction false} UnansweredExactly(t: Tree, anchored: bool)
    ensures (exists s: seq<letter> :: IsUnanswered(t, anchored, s)) <==> CanHang(t)
  {
    if s: seq<letter> :| IsUnanswered(t, anchored, s) {
      var i :| IsUnending(t, anchored, s, i);
      PathBounded(t, s, i, map[], Counts(t, s, i), map[], false);
    }
    if CanHang(t) {
      var s := Narrowest(t, map[], false).text;
      HangsOnSample(t);
      SearchMeaning(t, s, 0);
      assert IsUnending(t, anchored, s, 0);
      assert IsUnanswered(t, anchored, s);
    }
  }

  /** The subject is the narrowest text before the hazard, searched from its start. */
  lemma {:induction false} HangsOnSample(t: Tree)
    requires CanHang(t)
    ensures Search(Compiled(t), Narrowest(t, map[], false).text, 0, NoCaps).Hang?
  {
    var s := Narrowest(t, map[], false).text;
    assert Lengths(map[]) == map[];
    NarrowestWidth(t, map[], false);
    SampleReads(t, map[], false, s, 0, map[], []);
    SearchMeaning(t, s, 0);
    assert Settles(t, s, 0, Fewest(t, map[], false, []));
    PathTight(t, s, 0, map[], Counts(t, s, 0), map[], false);
    PathForward(t, s, 0, map[], Counts(t, s, 0));
  }
}
