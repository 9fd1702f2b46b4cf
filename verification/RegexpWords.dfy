/**
 * The meaning of patterns once more, without positions and without counts: which words a
 * tree matches.  The numbers and ranges of the pattern language are written out here.
 */
module RegexpWords {
  import opened RegexpBits
  import opened RegexpTree
  import opened RegexpTheorems

  /** The words captured so far, by group number. */
  type Texts = map<nat, seq<letter>>

  /** A range holds what lies between its ends, and always its upper end. */
  predicate Belongs(x: letter, cls: Class) {
    match cls
    case Any => true
    case Lit(c) => x == c
    case Bracket(neg, spans) => neg != exists sp :: sp in spans && (x == sp.hi || sp.lo <= x <= sp.hi)
  }

  /** Without an upper limit, 20000 repetitions beyond the lower one are allowed. */
  predicate Times(rep: Rep, n: nat) {
    match rep
    case Once => n == 1
    case Star => true
    case Range(lo, hi) => lo <= n && (if hi == 255 then n <= lo + 20000 else n <= hi)
  }

  function Power(w: seq<letter>, n: nat): seq<letter> {
    if n == 0 then [] else w + Power(w, n - 1)
  }

  predicate AllBelong(w: seq<letter>, cls: Class) {
    forall k :: 0 <= k < |w| ==> Belongs(w[k], cls)
  }

  /** The word begins with n letters that the element matches. */
  predicate Begins(cls: Class, rep: Rep, n: nat, w: seq<letter>) {
    n <= |w| && Times(rep, n) && AllBelong(w[..n], cls)
  }

  predicate EndsAt(last: bool, n: nat, w: seq<letter>) {
    last && n == |w|
  }

  /**
   * The tree matches w, given the words captured before; last says that the subject ends
   * with w.  Afterwards the words in out are captured.
   */
  ghost predicate IsWord(t: Tree, w: seq<letter>, last: bool, texts: Texts, out: Texts)
    decreases t
  {
    match t
    case Empty => w == [] && out == texts
    case Atom(cls, rep, next) =>
      exists n: nat {:trigger Begins(cls, rep, n, w)} ::
        Begins(cls, rep, n, w) && IsWord(next, w[n..], last, texts, out)
    case Eol(next) => w == [] && last && IsWord(next, w, last, texts, out)
    case Group(k, body, next) =>
      exists n: nat, mid ::
        && n <= |w| && IsWord(body, w[..n], EndsAt(last, n, w), texts, mid)
        && IsWord(next, w[n..], last, mid[k := w[..n]], out)
    case Ref(k, next) =>
      k in texts && texts[k] <= w && IsWord(next, w[|texts[k]|..], last, texts, out)
    case RefStar(k, next) =>
      && k in texts && texts[k] != []
      && exists n: nat :: Power(texts[k], n) <= w && IsWord(next, w[|Power(texts[k], n)|..], last, texts, out)
  }

  // ---- The parts of the language ----

  lemma {:induction false} BelongsExactly(x: letter, cls: Class)
    ensures Belongs(x, cls) <==> ClassHas(cls, x)
  {
    if cls.Bracket? {
      if sp :| sp in cls.spans && (x == sp.hi || sp.lo <= x <= sp.hi) {
        var i :| 0 <= i < |cls.spans| && cls.spans[i] == sp;
        assert InSpan(x, cls.spans[i]);
      }
      if i :| 0 <= i < |cls.spans| && InSpan(x, cls.spans[i]) {
        assert cls.spans[i] in cls.spans;
      }
    }
  }

  /** An interval allows the counts from its lower to its upper limit. */
  lemma {:induction false} TimesExactly(rep: Rep, n: nat)
    ensures Times(rep, n) <==> Allows(rep, n)
  {}

  lemma {:induction false} AllBelongExactly(cls: Class, s: seq<letter>, i: nat, n: nat)
    requires i + n <= |s|
    ensures AllBelong(s[i..i + n], cls) <==> AllIn(cls, s, i, n)
  {
    var w := s[i..i + n];
    if AllBelong(w, cls) {
      forall j | i <= j < i + n ensures ClassHas(cls, s[j]) {
        assert Belongs(w[j - i], cls);
        BelongsExactly(s[j], cls);
      }
    }
    if AllIn(cls, s, i, n) {
      forall k | 0 <= k < |w| ensures Belongs(w[k], cls) { BelongsExactly(s[i + k], cls); }
    }
  }

  lemma {:induction false} PowerWidth(w: seq<letter>, n: nat)
    ensures |Power(w, n)| == n * |w|
    decreases n
  {
    if n > 0 { PowerWidth(w, n - 1); }
  }

  lemma {:induction false} StartsWith(s: seq<letter>, i: nat, w: seq<letter>, v: seq<letter>)
    requires i <= |s|
    ensures w + v <= s[i..] <==> i + |w| <= |s| && s[i..i + |w|] == w && v <= s[i + |w|..]
  {
    if w + v <= s[i..] {
      assert s[i..i + |w|] == s[i..][..|w + v|][..|w|] && s[i + |w|..][..|v|] == s[i..][..|w + v|][|w|..];
    } else if i + |w| <= |s| && s[i..i + |w|] == w {
      assert s[i..] == w + s[i + |w|..];
    }
  }

  lemma {:induction false} CopiesExactly(s: seq<letter>, i: nat, w: seq<letter>, n: nat)
    requires i <= |s|
    ensures Copies(s, i, w, n) <==> Power(w, n) <= s[i..]
    decreases n
  {
    if n > 0 {
      StartsWith(s, i, w, Power(w, n - 1));
      if i + |w| <= |s| { CopiesExactly(s, i + |w|, w, n - 1); }
    }
  }

  // ---- Words and positions ----

  predicate AllCaptured(s: seq<letter>, spans: Spans) {
    forall k :: k in spans ==> Captured(s, spans, k)
  }

  function TextsOf(s: seq<letter>, spans: Spans): (r: Texts)
    requires AllCaptured(s, spans)
    ensures r.Keys == spans.Keys
  {
    map k | k in spans :: Text(s, spans, k)
  }

  lemma {:induction false} TextsAdd(s: seq<letter>, spans: Spans, k: nat, i: nat, j: nat)
    requires AllCaptured(s, spans) && i <= j <= |s|
    ensures AllCaptured(s, spans[k := (i, j)])
    ensures TextsOf(s, spans[k := (i, j)]) == TextsOf(s, spans)[k := s[i..j]]
  {}

  /** A word that begins with n letters, and what is left of it. */
  lemma {:induction false} SplitAt(s: seq<letter>, i: nat, n: nat, j: nat)
    requires i + n <= j <= |s|
    ensures s[i..j][..n] == s[i..i + n] && s[i..j][n..] == s[i + n..j]
  {}

  /** What a choice of counts matches is a word of the tree. */
  lemma {:induction false} EvalIsWord(t: Tree, s: seq<letter>, i: nat, spans: Spans, counts: seq<nat>)
    requires i <= |s| && AllCaptured(s, spans)
    ensures var path := Eval(t, s, i, spans, counts);
      path.At? ==>
        && i <= path.pos <= |s| && AllCaptured(s, path.spans)
        && IsWord(t, s[i..path.pos], path.pos == |s|, TextsOf(s, spans), TextsOf(s, path.spans))
    decreases t, 1
  {
    match t
    case Empty =>
    case Atom(cls, rep, next) =>
      if rep.Once? {
        AtomIsWord(cls, rep, next, s, i, spans, 1, counts);
      } else if counts != [] {
        AtomIsWord(cls, rep, next, s, i, spans, counts[0], counts[1..]);
      }
    case Eol(next) => EvalIsWord(next, s, i, spans, counts);
    case Group(k, body, next) =>
      EvalIsWord(body, s, i, spans, counts);
      var inner := Eval(body, s, i, spans, counts);
      if inner.At? { GroupIsWord(k, body, next, s, i, TextsOf(s, spans), inner.pos, inner.spans, inner.counts); }
    case Ref(k, next) =>
      if k in spans && Copies(s, i, Text(s, spans, k), 1) { RefIsWord(k, next, s, i, spans, counts); }
    case RefStar(k, next) => if counts != [] { RefStarIsWord(k, next, s, i, spans, counts); }
  }

  lemma {:induction false} AtomIsWord(cls: Class, rep: Rep, next: Tree, s: seq<letter>, i: nat, spans: Spans, n: nat,
                                      left: seq<nat>)
    requires i <= |s| && AllCaptured(s, spans)
    ensures var path := Eval(next, s, i + n, spans, left);
      path.At? && Allows(rep, n) && AllIn(cls, s, i, n) ==>
        && i <= path.pos <= |s| && AllCaptured(s, path.spans)
        && IsWord(Atom(cls, rep, next), s[i..path.pos], path.pos == |s|, TextsOf(s, spans), TextsOf(s, path.spans))
    decreases next, 2
  {
    if Allows(rep, n) && AllIn(cls, s, i, n) {
      var path := Eval(next, s, i + n, spans, left);
      EvalIsWord(next, s, i + n, spans, left);
      if path.At? { AtomJoins(cls, rep, next, s, i, n, path.pos, TextsOf(s, spans), TextsOf(s, path.spans)); }
    }
  }

  lemma {:induction false} AtomJoins(cls: Class, rep: Rep, next: Tree, s: seq<letter>, i: nat, n: nat, j: nat,
                                     texts: Texts, out: Texts)
    requires i + n <= j <= |s| && Allows(rep, n) && AllIn(cls, s, i, n)
    requires IsWord(next, s[i + n..j], j == |s|, texts, out)
    ensures IsWord(Atom(cls, rep, next), s[i..j], j == |s|, texts, out)
  {
    SplitAt(s, i, n, j);
    BeginsAt(cls, rep, s, i, n, j);
    AtomWord(cls, rep, next, s[i..j], j == |s|, texts, out, n);
  }

  lemma {:induction false} AtomWord(cls: Class, rep: Rep, next: Tree, w: seq<letter>, last: bool, texts: Texts,
                                    out: Texts, n: nat)
    requires Begins(cls, rep, n, w) && IsWord(next, w[n..], last, texts, out)
    ensures IsWord(Atom(cls, rep, next), w, last, texts, out)
  {}

  lemma {:induction false} BeginsAt(cls: Class, rep: Rep, s: seq<letter>, i: nat, n: nat, j: nat)
    requires i + n <= j <= |s| && Allows(rep, n) && AllIn(cls, s, i, n)
    ensures Begins(cls, rep, n, s[i..j])
  {
    SplitAt(s, i, n, j);
    AllBelongExactly(cls, s, i, n);
    TimesExactly(rep, n);
  }

  lemma {:induction false} GroupWord(k: nat, body: Tree, next: Tree, w: seq<letter>, last: bool, texts: Texts,
                                     out: Texts, n: nat, mid: Texts)
    requires n <= |w| && IsWord(body, w[..n], EndsAt(last, n, w), texts, mid)
    requires IsWord(next, w[n..], last, mid[k := w[..n]], out)
    ensures IsWord(Group(k, body, next), w, last, texts, out)
  {}

  lemma {:induction false} GroupIsWord(k: nat, body: Tree, next: Tree, s: seq<letter>, i: nat, texts: Texts, m: nat,
                                       inner: Spans, left: seq<nat>)
    requires i <= m <= |s| && AllCaptured(s, inner) && IsWord(body, s[i..m], m == |s|, texts, TextsOf(s, inner))
    ensures var path := Eval(next, s, m, inner[k := (i, m)], left);
      path.At? ==>
        && i <= path.pos <= |s| && AllCaptured(s, path.spans)
        && IsWord(Group(k, body, next), s[i..path.pos], path.pos == |s|, texts, TextsOf(s, path.spans))
    decreases next, 2
  {
    var path := Eval(next, s, m, inner[k := (i, m)], left);
    TextsAdd(s, inner, k, i, m);
    EvalIsWord(next, s, m, inner[k := (i, m)], left);
    if path.At? {
      GroupJoins(k, body, next, s, i, m - i, path.pos, texts, TextsOf(s, inner), TextsOf(s, path.spans));
    }
  }

  lemma {:induction false} GroupJoins(k: nat, body: Tree, next: Tree, s: seq<letter>, i: nat, n: nat, j: nat,
                                      texts: Texts, mid: Texts, out: Texts)
    requires i + n <= j <= |s| && IsWord(body, s[i..i + n], i + n == |s|, texts, mid)
    requires IsWord(next, s[i + n..j], j == |s|, mid[k := s[i..i + n]], out)
    ensures IsWord(Group(k, body, next), s[i..j], j == |s|, texts, out)
  {
    SplitAt(s, i, n, j);
    assert EndsAt(j == |s|, n, s[i..j]) == (i + n == |s|);
    GroupWord(k, body, next, s[i..j], j == |s|, texts, out, n, mid);
  }

  lemma {:induction false} RefIsWord(k: nat, next: Tree, s: seq<letter>, i: nat, spans: Spans, counts: seq<nat>)
    requires i <= |s| && AllCaptured(s, spans) && k in spans && Copies(s, i, Text(s, spans, k), 1)
    ensures var path := Eval(next, s, i + |Text(s, spans, k)|, spans, counts);
      path.At? ==>
        && i <= path.pos <= |s| && AllCaptured(s, path.spans)
        && IsWord(Ref(k, next), s[i..path.pos], path.pos == |s|, TextsOf(s, spans), TextsOf(s, path.spans))
    decreases next, 2
  {
    var m := i + |Text(s, spans, k)|;
    var path := Eval(next, s, m, spans, counts);
    EvalIsWord(next, s, m, spans, counts);
    if path.At? { RefJoins(k, next, s, i, path.pos, TextsOf(s, spans), TextsOf(s, path.spans)); }
  }

  lemma {:induction false} RefJoins(k: nat, next: Tree, s: seq<letter>, i: nat, j: nat, texts: Texts, out: Texts)
    requires k in texts && i + |texts[k]| <= j <= |s| && s[i..i + |texts[k]|] == texts[k]
    requires IsWord(next, s[i + |texts[k]|..j], j == |s|, texts, out)
    ensures IsWord(Ref(k, next), s[i..j], j == |s|, texts, out)
  {
    SplitAt(s, i, |texts[k]|, j);
  }

  lemma {:induction false} RefStarIsWord(k: nat, next: Tree, s: seq<letter>, i: nat, spans: Spans, counts: seq<nat>)
    requires i <= |s| && AllCaptured(s, spans) && counts != []
    ensures var path := Eval(RefStar(k, next), s, i, spans, counts);
      path.At? ==>
        && i <= path.pos <= |s| && AllCaptured(s, path.spans)
        && IsWord(RefStar(k, next), s[i..path.pos], path.pos == |s|, TextsOf(s, spans), TextsOf(s, path.spans))
    decreases RefStar(k, next), 0
  {
    if k in spans && Copies(s, i, Text(s, spans, k), counts[0]) {
      var w, n := Text(s, spans, k), counts[0];
      CopiesExactly(s, i, w, n);
      PowerWidth(w, n);
      var m := After(i, n, |w|);
      var path := Eval(next, s, m, spans, counts[1..]);
      EvalIsWord(next, s, m, spans, counts[1..]);
      if path.At? && w != [] { RefStarJoins(k, next, s, i, n, path.pos, TextsOf(s, spans), TextsOf(s, path.spans)); }
    }
  }

  lemma {:induction false} RefStarJoins(k: nat, next: Tree, s: seq<letter>, i: nat, n: nat, j: nat, texts: Texts,
                                        out: Texts)
    requires k in texts && texts[k] != [] && i + |Power(texts[k], n)| <= j <= |s| && Power(texts[k], n) <= s[i..]
    requires IsWord(next, s[i + |Power(texts[k], n)|..j], j == |s|, texts, out)
    ensures IsWord(RefStar(k, next), s[i..j], j == |s|, texts, out)
  {
    var v := Power(texts[k], n);
    SplitAt(s, i, |v|, j);
    assert s[i..][..|v|] == s[i..i + |v|];
    RefStarWord(k, next, s[i..j], j == |s|, texts, out, n);
  }

  lemma {:induction false} RefStarWord(k: nat, next: Tree, w: seq<letter>, last: bool, texts: Texts, out: Texts, n: nat)
    requires k in texts && texts[k] != [] && Power(texts[k], n) <= w
    requires IsWord(next, w[|Power(texts[k], n)|..], last, texts, out)
    ensures IsWord(RefStar(k, next), w, last, texts, out)
  {}

  // ---- A word is matched under some counts ----

  /** Counts that are not needed are left over. */
  lemma {:induction false} EvalMore(t: Tree, s: seq<letter>, i: nat, spans: Spans, counts: seq<nat>, more: seq<nat>)
    ensures var path := Eval(t, s, i, spans, counts);
      path.At? ==> Eval(t, s, i, spans, counts + more) == path.(counts := path.counts + more)
    decreases t
  {
    if counts != [] { assert (counts + more)[1..] == counts[1..] + more; }
    match t
    case Empty =>
    case Atom(cls, rep, next) =>
      if rep.Once? {
        EvalMore(next, s, i + 1, spans, counts, more);
      } else if counts != [] {
        EvalMore(next, s, i + counts[0], spans, counts[1..], more);
      }
    case Eol(next) => EvalMore(next, s, i, spans, counts, more);
    case Group(k, body, next) =>
      EvalMore(body, s, i, spans, counts, more);
      var inner := Eval(body, s, i, spans, counts);
      if inner.At? { EvalMore(next, s, inner.pos, inner.spans[k := (i, inner.pos)], inner.counts, more); }
    case Ref(k, next) =>
      if Captured(s, spans, k) { EvalMore(next, s, i + |Text(s, spans, k)|, spans, counts, more); }
    case RefStar(k, next) =>
      if Captured(s, spans, k) && counts != [] {
        EvalMore(next, s, After(i, counts[0], |Text(s, spans, k)|), spans, counts[1..], more);
      }
  }

  /** The counts match s from i to j, and capture these words. */
  ghost predicate Yields(t: Tree, s: seq<letter>, i: nat, j: nat, spans: Spans, counts: seq<nat>, fin: Spans,
                         out: Texts) {
    Eval(t, s, i, spans, counts) == At(j, fin, []) && AllCaptured(s, fin) && TextsOf(s, fin) == out
  }

  lemma {:induction false} WordIsEval(t: Tree, s: seq<letter>, i: nat, j: nat, spans: Spans, out: Texts)
      returns (counts: seq<nat>, fin: Spans)
    requires i <= j <= |s| && AllCaptured(s, spans) && IsWord(t, s[i..j], j == |s|, TextsOf(s, spans), out)
    ensures Yields(t, s, i, j, spans, counts, fin, out)
    decreases t, 1
  {
    match t
    case Empty => counts, fin := [], spans;
    case Atom(cls, rep, next) =>
      var n := AtomSplits(cls, rep, next, s, i, j, TextsOf(s, spans), out);
      counts, fin := WordIsAtom(cls, rep, next, s, i, j, spans, out, n);
    case Eol(next) => counts, fin := WordIsEval(next, s, i, j, spans, out);
    case Group(k, body, next) => counts, fin := WordIsGroup(k, body, next, s, i, j, spans, out);
    case Ref(k, next) => counts, fin := WordIsRef(k, next, s, i, j, spans, out);
    case RefStar(k, next) =>
      var n := RefStarSplits(k, next, s[i..j], j == |s|, TextsOf(s, spans), out);
      counts, fin := WordIsRefStar(k, next, s, i, j, spans, out, n);
  }

  lemma {:induction false} AtomSplits(cls: Class, rep: Rep, next: Tree, s: seq<letter>, i: nat, j: nat, texts: Texts,
                                      out: Texts) returns (n: nat)
    requires i <= j <= |s| && IsWord(Atom(cls, rep, next), s[i..j], j == |s|, texts, out)
    ensures i + n <= j && Times(rep, n) && AllBelong(s[i..i + n], cls)
    ensures IsWord(next, s[i + n..j], j == |s|, texts, out)
  {
    var w, last := s[i..j], j == |s|;
    n :| Begins(cls, rep, n, w) && IsWord(next, w[n..], last, texts, out);
    SplitAt(s, i, n, j);
  }

  lemma {:induction false} WordIsAtom(cls: Class, rep: Rep, next: Tree, s: seq<letter>, i: nat, j: nat, spans: Spans,
                                      out: Texts, n: nat) returns (counts: seq<nat>, fin: Spans)
    requires i + n <= j <= |s| && AllCaptured(s, spans) && Times(rep, n) && AllBelong(s[i..i + n], cls)
    requires IsWord(next, s[i + n..j], j == |s|, TextsOf(s, spans), out)
    ensures Yields(Atom(cls, rep, next), s, i, j, spans, counts, fin, out)
    decreases Atom(cls, rep, next), 0
  {
    AllBelongExactly(cls, s, i, n);
    TimesExactly(rep, n);
    var rest, all := WordIsEval(next, s, i + n, j, spans, out);
    counts, fin := if rep.Once? then rest else [n] + rest, all;
    assert ([n] + rest)[1..] == rest;
    AtomEval(cls, rep, next, s, i, spans, n, rest, counts);
  }

  lemma {:induction false} AtomEval(cls: Class, rep: Rep, next: Tree, s: seq<letter>, i: nat, spans: Spans, n: nat,
                                    rest: seq<nat>, counts: seq<nat>)
    requires Allows(rep, n) && AllIn(cls, s, i, n)
    requires if rep.Once? then counts == rest else counts != [] && counts[0] == n && counts[1..] == rest
    ensures Eval(Atom(cls, rep, next), s, i, spans, counts) == Eval(next, s, i + n, spans, rest)
  {}

  lemma {:induction false} GroupSplits(k: nat, body: Tree, next: Tree, w: seq<letter>, last: bool, texts: Texts,
                                       out: Texts) returns (n: nat, mid: Texts)
    requires IsWord(Group(k, body, next), w, last, texts, out)
    ensures n <= |w| && IsWord(body, w[..n], EndsAt(last, n, w), texts, mid)
    ensures IsWord(next, w[n..], last, mid[k := w[..n]], out)
  {
    n, mid :| n <= |w| && IsWord(body, w[..n], EndsAt(last, n, w), texts, mid)
      && IsWord(next, w[n..], last, mid[k := w[..n]], out);
  }

  lemma {:induction false} WordIsGroup(k: nat, body: Tree, next: Tree, s: seq<letter>, i: nat, j: nat, spans: Spans,
                                       out: Texts) returns (counts: seq<nat>, fin: Spans)
    requires i <= j <= |s| && AllCaptured(s, spans)
    requires IsWord(Group(k, body, next), s[i..j], j == |s|, TextsOf(s, spans), out)
    ensures Yields(Group(k, body, next), s, i, j, spans, counts, fin, out)
    decreases Group(k, body, next), 0
  {
    var n, mid := GroupSplits(k, body, next, s[i..j], j == |s|, TextsOf(s, spans), out);
    var m := i + n;
    SplitAt(s, i, n, j);
    var first, inner := WordIsEval(body, s, i, m, spans, mid);
    TextsAdd(s, inner, k, i, m);
    var rest, all := WordIsEval(next, s, m, j, inner[k := (i, m)], out);
    GroupEval(k, body, next, s, i, m, spans, first, inner, rest);
    counts, fin := first + rest, all;
  }

  lemma {:induction false} GroupEval(k: nat, body: Tree, next: Tree, s: seq<letter>, i: nat, m: nat, spans: Spans,
                                     first: seq<nat>, inner: Spans, rest: seq<nat>)
    requires Eval(body, s, i, spans, first) == At(m, inner, [])
    ensures Eval(Group(k, body, next), s, i, spans, first + rest) == Eval(next, s, m, inner[k := (i, m)], rest)
  {
    EvalMore(body, s, i, spans, first, rest);
    assert [] + rest == rest;
  }

  lemma {:induction false} WordIsRef(k: nat, next: Tree, s: seq<letter>, i: nat, j: nat, spans: Spans, out: Texts)
      returns (counts: seq<nat>, fin: Spans)
    requires i <= j <= |s| && AllCaptured(s, spans)
    requires IsWord(Ref(k, next), s[i..j], j == |s|, TextsOf(s, spans), out)
    ensures Yields(Ref(k, next), s, i, j, spans, counts, fin, out)
    decreases Ref(k, next), 0
  {
    var w := Text(s, spans, k);
    var m := i + |w|;
    assert w <= s[i..j];
    SplitAt(s, i, |w|, j);
    OneCopy(s, i, w, j);
    counts, fin := WordIsEval(next, s, m, j, spans, out);
  }

  lemma {:induction false} OneCopy(s: seq<letter>, i: nat, w: seq<letter>, j: nat)
    requires i <= j <= |s| && w <= s[i..j]
    ensures Copies(s, i, w, 1)
  {
    assert s[i..i + |w|] == s[i..j][..|w|] == w;
    assert Copies(s, i + |w|, w, 0);
  }

  lemma {:induction false} RefStarSplits(k: nat, next: Tree, w: seq<letter>, last: bool, texts: Texts, out: Texts)
      returns (n: nat)
    requires IsWord(RefStar(k, next), w, last, texts, out)
    ensures k in texts && texts[k] != [] && Power(texts[k], n) <= w
    ensures IsWord(next, w[|Power(texts[k], n)|..], last, texts, out)
  {
    n :| Power(texts[k], n) <= w && IsWord(next, w[|Power(texts[k], n)|..], last, texts, out);
  }

  lemma {:induction false} WordIsRefStar(k: nat, next: Tree, s: seq<letter>, i: nat, j: nat, spans: Spans, out: Texts,
                                         n: nat) returns (counts: seq<nat>, fin: Spans)
    requires i <= j <= |s| && AllCaptured(s, spans) && k in spans && Text(s, spans, k) != []
    requires Power(Text(s, spans, k), n) <= s[i..j]
    requires IsWord(next, s[i..j][|Power(Text(s, spans, k), n)|..], j == |s|, TextsOf(s, spans), out)
    ensures Yields(RefStar(k, next), s, i, j, spans, counts, fin, out)
    decreases RefStar(k, next), 0
  {
    var m := ManyCopies(s, i, Text(s, spans, k), j, n);
    var rest, all := WordIsEval(next, s, m, j, spans, out);
    assert ([n] + rest)[1..] == rest;
    counts, fin := [n] + rest, all;
  }

  lemma {:induction false} ManyCopies(s: seq<letter>, i: nat, w: seq<letter>, j: nat, n: nat) returns (m: nat)
    requires i <= j <= |s| && Power(w, n) <= s[i..j]
    ensures m == After(i, n, |w|) <= j && Copies(s, i, w, n) && s[i..j][|Power(w, n)|..] == s[m..j]
  {
    PowerWidth(w, n);
    m := After(i, n, |w|);
    SplitAt(s, i, |Power(w, n)|, j);
    assert Power(w, n) == s[i..m] == s[i..][..m - i];
    CopiesExactly(s, i, w, n);
  }

  /** Some choice of counts matches s from i to j exactly if the tree has that word. */
  lemma {:induction false} WordExactly(t: Tree, s: seq<letter>, i: nat, j: nat, spans: Spans, out: Texts)
    requires i <= j <= |s| && AllCaptured(s, spans)
    ensures (exists counts, fin :: Yields(t, s, i, j, spans, counts, fin, out)) <==>
            IsWord(t, s[i..j], j == |s|, TextsOf(s, spans), out)
  {
    if counts, fin :| Yields(t, s, i, j, spans, counts, fin, out) { EvalIsWord(t, s, i, spans, counts); }
    if IsWord(t, s[i..j], j == |s|, TextsOf(s, spans), out) {
      var counts, fin := WordIsEval(t, s, i, j, spans, out);
      assert Yields(t, s, i, j, spans, counts, fin, out);
    }
  }

  // ---- What step reports ----

  /** The subject from i to j is a word of the tree, and captures these words. */
  ghost predicate IsWordAt(t: Tree, s: seq<letter>, i: nat, j: nat, out: Texts)
    requires i <= j <= |s|
  {
    IsWord(t, s[i..j], j == |s|, map[], out)
  }

  ghost predicate HasWord(t: Tree, s: seq<letter>, i: nat, j: nat)
    requires i <= j <= |s|
  {
    exists out :: IsWordAt(t, s, i, j, out)
  }

  lemma {:induction false} WordSettles(t: Tree, s: seq<letter>, i: nat, j: nat)
    requires i <= j <= |s| && HasWord(t, s, i, j)
    ensures exists counts :: Settles(t, s, i, counts)
  {
    var out :| IsWordAt(t, s, i, j, out);
    assert TextsOf(s, map[]) == map[];
    var counts, fin := WordIsEval(t, s, i, j, map[], out);
    assert Settles(t, s, i, counts);
  }

  /** The words that the groups of a match stand for. */
  ghost predicate AreWords(s: seq<letter>, groups: seq<(int, int)>, out: Texts) {
    forall k :: k in out ==>
      k < |groups| && 0 <= groups[k].0 <= groups[k].1 <= |s| && out[k] == s[groups[k].0..groups[k].1]
  }

  /** A reported match is a word of the pattern, with its groups, and no word begins before it. */
  lemma {:induction false} MatchIsWord(t: Tree, anchored: bool, s: seq<letter>, at: nat, end: nat,
                                       groups: seq<(int, int)>)
    requires IsMatch(t, anchored, s, at, end, groups)
    ensures at <= end <= |s|
    ensures exists out :: IsWordAt(t, s, at, end, out) && out.Keys == Groups(t) && AreWords(s, groups, out)
    ensures forall i, j :: 0 <= i < at && i <= j <= |s| ==> !HasWord(t, s, i, j)
  {
    var path := Eval(t, s, at, map[], Counts(t, s, at));
    assert TextsOf(s, map[]) == map[];
    EvalIsWord(t, s, at, map[], Counts(t, s, at));
    assert IsWordAt(t, s, at, end, TextsOf(s, path.spans)) && AreWords(s, groups, TextsOf(s, path.spans));
    forall i, j | 0 <= i < at && i <= j <= |s| ensures !HasWord(t, s, i, j) {
      if HasWord(t, s, i, j) { WordSettles(t, s, i, j); }
    }
  }

  /** When no match is reported, the subject has no word of the pattern where one is looked for. */
  lemma {:induction false} NoMatchNoWord(t: Tree, anchored: bool, s: seq<letter>)
    requires NoMatch(t, anchored, s)
    ensures forall i, j :: 0 <= i <= (if anchored then 0 else |s|) && i <= j <= |s| ==> !HasWord(t, s, i, j)
  {
    forall i, j | 0 <= i <= (if anchored then 0 else |s|) && i <= j <= |s| ensures !HasWord(t, s, i, j) {
      if HasWord(t, s, i, j) { WordSettles(t, s, i, j); }
    }
  }

  /** The words of a letter with an interval: between lo and hi of it, or up to 20000 more than lo. */
  lemma {:induction false} IntervalWords(c: letter, lo: byte, hi: byte, w: seq<letter>, last: bool)
    ensures IsWord(Atom(Lit(c), Range(lo, hi), Empty), w, last, map[], map[]) <==>
            && (forall k :: 0 <= k < |w| ==> w[k] == c)
            && lo <= |w| <= (if hi == 255 then lo + 20000 else hi)
  {
    if forall k :: 0 <= k < |w| ==> w[k] == c {
      assert w[..|w|] == w;
      if lo <= |w| <= (if hi == 255 then lo + 20000 else hi) { assert Begins(Lit(c), Range(lo, hi), |w|, w); }
    }
    if n: nat :| Begins(Lit(c), Range(lo, hi), n, w) && IsWord(Empty, w[n..], last, map[], map[]) {
      assert w[..n] == w;
      forall k | 0 <= k < |w| ensures w[k] == c { assert Belongs(w[..n][k], Lit(c)); }
    }
  }
}
