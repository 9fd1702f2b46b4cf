/** From pattern text to reported match. */
module RegexpTheorems {
  import opened RegexpBits
  import opened RegexpTree
  import opened RegexpCode
  import opened RegexpSearch
  import opened RegexpMeaning
  import opened RegexpMatcher
  import opened RegexpSyntax
  import opened RegexpGrammar
  import opened RegexpEmit
  import opened RegexpSized
  import opened Options
  import Compiling = RegexpCompiler

  // ---- Emitted code ----

  lemma {:induction false} ScopedLower(items: seq<Instr<Class>>, open: seq<nat>, closed: set<nat>)
    requires Scoped(items, open, closed)
    ensures Scoped(LowerAll(items), open, closed)
    decreases |items|
  {
    if items != [] {
      assert LowerAll(items)[1..] == LowerAll(items[1..]);
      match items[0]
      case Bra(k) => ScopedLower(items[1..], [k] + open, closed);
      case Ket(k) => ScopedLower(items[1..], open[1..], closed + {k});
      case Patched(_, _) =>
      case _ => ScopedLower(items[1..], open, closed);
    }
  }

  /** Code that advance can execute decodes to the program of the pattern's tree, well scoped. */
  lemma {:induction false} CodeDecodes(src: seq<letter>, eof: byte, sed: bool, code: seq<byte>)
    requires Parse(src, eof, sed).Good? && Supported(Parse(src, eof, sed).value)
    requires ProgWf(LowerAll(Parse(src, eof, sed).value)) && code == Encode(LowerAll(Parse(src, eof, sed).value))
    ensures var t := TreeOf(Parse(src, eof, sed).value);
      Decode(code, 0) == Some(Compiled(t)) && Scoped(Compiled(t), [], {})
  {
    var items := Parse(src, eof, sed).value;
    StartOk();
    ParseScoped(src, if IsAnchored(src) then 1 else 0, eof, sed, Start);
    TreeOfFlattens(items);
    ScopedLower(items, [], {});
    ScopedUnpatched(LowerAll(items), [], {});
    DecodeEncode(code, 0, LowerAll(items));
  }

  // ---- Meaning of a search ----

  /** The tree matches s from i to j under these counts, capturing these spans. */
  predicate Accepts(t: Tree, s: seq<letter>, i: nat, counts: seq<nat>, j: nat, spans: Spans) {
    Eval(t, s, i, map[], counts) == At(j, spans, [])
  }

  predicate Diverges(t: Tree, s: seq<letter>, i: nat, counts: seq<nat>) {
    Eval(t, s, i, map[], counts) == Endless
  }

  /** A choice of counts that does not simply fail. */
  predicate Settles(t: Tree, s: seq<letter>, i: nat, counts: seq<nat>) {
    var path := Eval(t, s, i, map[], counts);
    path.Endless? || (path.At? && path.counts == [])
  }

  lemma {:induction false} RunMeaning(t: Tree, s: seq<letter>, i: nat, counts: seq<nat>)
    ensures var r := Run(Compiled(t), s, i, NoCaps, counts);
      && (r.Fail? <==> !Settles(t, s, i, counts))
      && (r.Hang? <==> Diverges(t, s, i, counts))
      && (r.Match? ==> Accepts(t, s, i, counts, r.end, r.spans))
  {
    RunTree(t, [], s, i, NoCaps, counts);
    assert Compiled(t) + [] == Compiled(t);
  }

  /** The counts a search at i settles on. */
  function Counts(t: Tree, s: seq<letter>, i: nat): seq<nat> {
    Choice(Compiled(t), s, i, NoCaps)
  }

  /**
   * The search is sound, complete and greedy: it fails only if every choice of counts
   * does, and otherwise follows the lexicographically greatest choice that does not.
   */
  lemma {:induction false} SearchMeaning(t: Tree, s: seq<letter>, i: nat)
    requires i <= |s|
    ensures var out, best := Search(Compiled(t), s, i, NoCaps), Counts(t, s, i);
      && (out.Fail? <==> forall counts :: !Settles(t, s, i, counts))
      && (out.Match? ==> Accepts(t, s, i, best, out.end, out.spans))
      && (out.Hang? ==> Diverges(t, s, i, best))
      && (forall counts :: Settles(t, s, i, counts) ==> LexLe(counts, best))
  {
    var out, best := Search(Compiled(t), s, i, NoCaps), Counts(t, s, i);
    if !out.Fail? {
      SearchIsRun(Compiled(t), s, i, NoCaps);
      RunMeaning(t, s, i, best);
    }
    forall counts | Settles(t, s, i, counts)
      ensures !out.Fail? && LexLe(counts, best)
    {
      RunMeaning(t, s, i, counts);
      SearchIsGreediest(Compiled(t), s, i, NoCaps, counts);
    }
  }

  /** The groups of a tree. */
  function Groups(t: Tree): set<nat> {
    match t
    case Empty => {}
    case Atom(_, _, next) => Groups(next)
    case Eol(next) => Groups(next)
    case Group(k, body, next) => {k} + Groups(body) + Groups(next)
    case Ref(_, next) => Groups(next)
    case RefStar(_, next) => Groups(next)
  }

  predicate Inside(before: Spans, after: Spans, i: nat, j: nat) {
    forall k :: k in after ==> (k in before && after[k] == before[k]) || i <= after[k].0 <= after[k].1 <= j
  }

  /** The groups are captured on the way from i, and nothing else is. */
  predicate Captures(groups: set<nat>, i: nat, spans: Spans, path: Path) {
    path.At? ==>
      i <= path.pos && path.spans.Keys == spans.Keys + groups && Inside(spans, path.spans, i, path.pos)
  }

  lemma {:induction false} CapturesEarlier(groups: set<nat>, i: nat, j: nat, spans: Spans, path: Path)
    requires Captures(groups, j, spans, path) && i <= j
    ensures Captures(groups, i, spans, path)
  {}

  /** A match captures every group of the pattern, each within the match. */
  lemma {:induction false} CapturesAll(t: Tree, s: seq<letter>, i: nat, spans: Spans, counts: seq<nat>)
    ensures Captures(Groups(t), i, spans, Eval(t, s, i, spans, counts))
    decreases t, 1
  {
    match t
    case Empty =>
    case Atom(cls, rep, next) =>
      if rep.Once? {
        CapturesNext(next, s, i, i + 1, spans, counts);
      } else if counts != [] {
        CapturesNext(next, s, i, i + counts[0], spans, counts[1..]);
      }
    case Eol(next) => CapturesAll(next, s, i, spans, counts);
    case Group(k, body, next) => CapturesGroup(k, body, next, s, i, spans, counts);
    case Ref(k, next) =>
      if Captured(s, spans, k) { CapturesNext(next, s, i, i + |Text(s, spans, k)|, spans, counts); }
    case RefStar(k, next) =>
      if Captured(s, spans, k) && counts != [] {
        CapturesNext(next, s, i, After(i, counts[0], |Text(s, spans, k)|), spans, counts[1..]);
      }
  }

  lemma {:induction false} CapturesNext(t: Tree, s: seq<letter>, i: nat, j: nat, spans: Spans, counts: seq<nat>)
    requires i <= j
    ensures Captures(Groups(t), i, spans, Eval(t, s, j, spans, counts))
    decreases t, 2
  {
    CapturesAll(t, s, j, spans, counts);
    CapturesEarlier(Groups(t), i, j, spans, Eval(t, s, j, spans, counts));
  }

  lemma {:induction false} CapturesGroup(k: nat, body: Tree, next: Tree, s: seq<letter>, i: nat, spans: Spans,
                                         counts: seq<nat>)
    ensures Captures(Groups(Group(k, body, next)), i, spans, Eval(Group(k, body, next), s, i, spans, counts))
    decreases Group(k, body, next), 0
  {
    CapturesAll(body, s, i, spans, counts);
    var inner := Eval(body, s, i, spans, counts);
    if inner.At? {
      var after := inner.spans[k := (i, inner.pos)];
      CapturesAll(next, s, inner.pos, after, inner.counts);
      var path := Eval(next, s, inner.pos, after, inner.counts);
      CapturesBoth(Groups(body), Groups(next), k, i, spans, inner, path);
    }
  }

  /** What is captured in a group, by it, and after it. */
  lemma {:induction false} CapturesBoth(inside: set<nat>, later: set<nat>, k: nat, i: nat, spans: Spans, inner: Path,
                                        path: Path)
    requires inner.At? && Captures(inside, i, spans, inner)
    requires Captures(later, inner.pos, inner.spans[k := (i, inner.pos)], path)
    ensures Captures({k} + inside + later, i, spans, path)
  {
    if path.At? {
      var after := inner.spans[k := (i, inner.pos)];
      assert path.spans.Keys == spans.Keys + ({k} + inside + later);
      InsideTwice(spans, inner.spans, after, path.spans, k, i, inner.pos, path.pos);
    }
  }

  lemma {:induction false} InsideTwice(a: Spans, b: Spans, b': Spans, c: Spans, k: nat, i: nat, m: nat, j: nat)
    requires i <= m <= j && b' == b[k := (i, m)] && Inside(a, b, i, m) && Inside(b', c, m, j)
    ensures Inside(a, c, i, j)
  {}

  /** Only one choice of counts is lexicographically greatest. */
  lemma {:induction false} LexLeAntisymmetric(a: seq<nat>, b: seq<nat>)
    requires LexLe(a, b) && LexLe(b, a)
    ensures a == b
    decreases |a|
  {
    if a != [] && b != [] {
      LexLeAntisymmetric(a[1..], b[1..]);
      assert a == [a[0]] + a[1..] && b == [b[0]] + b[1..];
    }
  }

  // ---- Compile, then step ----

  /**
   * groups[k] is the start and end recorded for group k.  NoAnswer: the search does not return.
   * Undefined: the code holds an instruction unknown to advance, or refers to an open group.
   */
  datatype Found =
    | NotFound
    | Found(start: nat, end: nat, groups: seq<(int, int)>)
    | NoAnswer
    | BadPattern(failure: Failure)
    | Undefined

  /** The position at is the first, or the only one if anchored, where some choice of counts does not fail. */
  ghost predicate IsFirst(t: Tree, anchored: bool, s: seq<letter>, at: nat) {
    && at <= |s| && (anchored ==> at == 0)
    && (forall counts :: Settles(t, s, at, counts) ==> LexLe(counts, Counts(t, s, at)))
    && (forall i, counts :: 0 <= i < at ==> !Settles(t, s, i, counts))
  }

  /** The match from at to end is the greediest there, and the leftmost unless anchored. */
  ghost predicate IsMatch(t: Tree, anchored: bool, s: seq<letter>, at: nat, end: nat, groups: seq<(int, int)>) {
    var path := Eval(t, s, at, map[], Counts(t, s, at));
    && IsFirst(t, anchored, s, at)
    && path.At? && path.counts == [] && path.pos == end && path.spans.Keys == Groups(t)
    && (forall k :: k in path.spans ==> k < |groups| && groups[k] == (path.spans[k].0 as int, path.spans[k].1 as int))
  }

  /** The first position that does not fail, followed as greedily, does not end. */
  ghost predicate IsUnending(t: Tree, anchored: bool, s: seq<letter>, at: nat) {
    IsFirst(t, anchored, s, at) && Diverges(t, s, at, Counts(t, s, at))
  }

  /** No choice of counts matches at the positions that are tried. */
  ghost predicate NoMatch(t: Tree, anchored: bool, s: seq<letter>) {
    forall i, counts :: 0 <= i <= (if anchored then 0 else |s|) ==> !Settles(t, s, i, counts)
  }

  ghost predicate IsUnanswered(t: Tree, anchored: bool, s: seq<letter>) {
    exists i :: IsUnending(t, anchored, s, i)
  }

  /** The first position that does not fail is one, and its counts lead to one end. */
  lemma {:induction false} MatchAnswers(t: Tree, anchored: bool, s: seq<letter>, at: nat)
    requires IsFirst(t, anchored, s, at) && Settles(t, s, at, Counts(t, s, at)) && !Diverges(t, s, at, Counts(t, s, at))
    ensures !IsUnanswered(t, anchored, s)
  {
    forall i: nat ensures !IsUnending(t, anchored, s, i) {
      if i < at {
        assert !Settles(t, s, i, Counts(t, s, i));
      } else if at < i {
        assert Settles(t, s, at, Counts(t, s, at));
        assert !IsFirst(t, anchored, s, i);
      }
    }
  }

  /** A search that does not fail, after others that did. */
  lemma {:induction false} FirstSettles(t: Tree, anchored: bool, s: seq<letter>, at: nat)
    requires at <= |s| && (if anchored then at == 0 else IsLeftmost(Compiled(t), s, 0, at))
    ensures IsFirst(t, anchored, s, at)
    ensures Search(Compiled(t), s, at, NoCaps).Hang? ==> IsUnending(t, anchored, s, at)
  {
    forall i, counts | 0 <= i < at ensures !Settles(t, s, i, counts) { SearchMeaning(t, s, i); }
    SearchMeaning(t, s, at);
  }

  /** What step's contract says about the tree, when the subject is searched from its start. */
  lemma {:induction false} StepMeaning(t: Tree, anchored: bool, s: seq<letter>, at: nat, v: Verdict, loc2: nat,
                    bras: seq<int>, brae: seq<int>)
    requires anchored ==> at == 0
    requires anchored || v.Yes? ==> at <= |s| && Reports(Search(Compiled(t), s, at, NoCaps), v, loc2, bras, brae)
    requires !anchored && v.Yes? ==> IsLeftmost(Compiled(t), s, 0, at)
    requires !anchored && v.No? ==> forall i :: 0 <= i <= |s| ==> Search(Compiled(t), s, i, NoCaps).Fail?
    requires !anchored && v.Never? ==>
               exists i :: IsLeftmost(Compiled(t), s, 0, i) && Search(Compiled(t), s, i, NoCaps).Hang?
    requires |bras| == |brae|
    ensures v.Yes? ==> IsMatch(t, anchored, s, at, loc2, seq(|bras|, k requires 0 <= k < |bras| => (bras[k], brae[k])))
    ensures v.No? ==> NoMatch(t, anchored, s)
    ensures v.Never? <==> IsUnanswered(t, anchored, s)
  {
    match v
    case Yes =>
      FirstSettles(t, anchored, s, at);
      SearchMeaning(t, s, at);
      CapturesAll(t, s, at, map[], Counts(t, s, at));
      MatchAnswers(t, anchored, s, at);
    case No =>
      forall i, counts | 0 <= i <= (if anchored then 0 else |s|) ensures !Settles(t, s, i, counts) {
        SearchMeaning(t, s, i);
      }
      assert forall i :: IsUnending(t, anchored, s, i) ==> Settles(t, s, i, Counts(t, s, i));
    case Never =>
      var i :| if anchored then i == 0 else IsLeftmost(Compiled(t), s, 0, i) && Search(Compiled(t), s, i, NoCaps).Hang?;
      FirstSettles(t, anchored, s, i);
  }

  /** A caller's use of the two entry points: the text is compiled and the subject searched. */
  method Find(src: seq<letter>, eof: byte, size: nat, s: seq<letter>) returns (r: Found)
    requires Get(src, 0) != eof && Get(src, 0) != NL
    ensures match Sized(src, eof, false, size)
      case Wrong(f) => r == BadPattern(f)
      case Good(items) =>
        var t, anchored := TreeOf(items), IsAnchored(src);
        && Parse(src, eof, false) == Good(items)
        && !r.BadPattern? && (r.Undefined? <==> !Supported(items))
        && (r.Found? ==> IsMatch(t, anchored, s, r.start, r.end, r.groups))
        && (r.NotFound? ==> NoMatch(t, anchored, s))
        && (r.NoAnswer? <==> Supported(items) && IsUnanswered(t, anchored, s))
  {
    var buf := new byte[size + 1];
    var c := new Compiling.Compiler(buf, size);
    var out := c.Compile(src, eof, false);
    if out.Rejected? { return BadPattern(out.failure); }
    SizedParses(src, eof, false, size);
    if !Scoped(Parse(src, eof, false).value, [], {}) { return Undefined; }
    var m := new Matcher();
    m.circf := c.circf;
    var code := buf[..out.length];
    CodeDecodes(src, eof, false, code);
    var v := m.Step(code, s, 0, 0);
    StepMeaning(TreeOf(Parse(src, eof, false).value), m.circf, s, m.loc1, v, m.loc2, m.braslist[..], m.braelist[..]);
    match v
    case No => r := NotFound;
    case Never => r := NoAnswer;
    case Yes =>
      var bras, brae := m.braslist[..], m.braelist[..];
      r := Found(m.loc1, m.loc2, seq(NBRA, k requires 0 <= k < NBRA => (bras[k], brae[k])));
  }

  /** A text that compiles is an accepted one, scoped exactly if it is supported. */
  lemma {:induction false} SizedParses(src: seq<letter>, eof: byte, sed: bool, size: nat)
    requires Sized(src, eof, sed, size).Good?
    ensures Parse(src, eof, sed) == Sized(src, eof, sed, size)
    ensures Scoped(Parse(src, eof, sed).value, [], {}) <==> Supported(Parse(src, eof, sed).value)
  {
    StartOk();
    var i := if IsAnchored(src) then 1 else 0;
    SizedIsParse(src, i, eof, sed, Start, size);
    ParseScoped(src, i, eof, sed, Start);
  }
}
