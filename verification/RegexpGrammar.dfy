/** Accepted patterns are well scoped, and their items form a tree. */
module RegexpGrammar {
  import opened RegexpBits
  import opened RegexpTree
  import opened RegexpCode
  import opened RegexpMeaning
  import opened RegexpSyntax

  // ---- Scoping, read forwards ----

  datatype Scope = Scope(open: seq<nat>, closed: set<nat>) | Broken

  const Outside := Scope([], {})

  /** The strict reading is that of Scoped; the other allows open references and patches. */
  function ScopeStep<C>(sc: Scope, ins: Instr<C>, strict: bool): Scope {
    if sc.Broken? then Broken
    else
      match ins
      case Bra(k) =>
        if k < NBRA && k !in sc.open && k !in sc.closed then Scope([k] + sc.open, sc.closed) else Broken
      case Ket(k) =>
        if sc.open != [] && sc.open[0] == k then Scope(sc.open[1..], sc.closed + {k}) else Broken
      case Back(k) => if k in sc.closed || (!strict && k in sc.open) then sc else Broken
      case BackStar(k) => if k in sc.closed || (!strict && k in sc.open) then sc else Broken
      case Patched(inner, _) => if strict then Broken else ScopeStep(sc, inner, strict)
      case _ => sc
  }

  function ScopeAfter<C>(sc: Scope, items: seq<Instr<C>>, strict: bool): Scope {
    if items == [] then sc
    else ScopeStep(ScopeAfter(sc, items[..|items| - 1], strict), items[|items| - 1], strict)
  }

  lemma {:induction false} ScopeAfterHead<C>(sc: Scope, items: seq<Instr<C>>, strict: bool)
    requires items != []
    ensures ScopeAfter(sc, items, strict) == ScopeAfter(ScopeStep(sc, items[0], strict), items[1..], strict)
    decreases |items|
  {
    var n := |items|;
    if n > 1 {
      ScopeAfterHead(sc, items[..n - 1], strict);
      assert items[..n - 1][1..] == items[1..][..n - 2];
    }
  }

  lemma {:induction false} BrokenStays<C>(items: seq<Instr<C>>, strict: bool)
    ensures ScopeAfter(Broken, items, strict).Broken?
    decreases |items|
  {
    if items != [] { BrokenStays(items[..|items| - 1], strict); }
  }

  lemma {:induction false} ScopedForwards<C>(items: seq<Instr<C>>, open: seq<nat>, closed: set<nat>)
    ensures var sc := ScopeAfter(Scope(open, closed), items, true);
      Scoped(items, open, closed) <==> sc.Scope? && sc.open == []
    decreases |items|
  {
    if items != [] {
      ScopeAfterHead(Scope(open, closed), items, true);
      var sc := ScopeStep(Scope(open, closed), items[0], true);
      if sc.Broken? {
        BrokenStays(items[1..], true);
      } else {
        ScopedForwards(items[1..], sc.open, sc.closed);
      }
    }
  }

  lemma {:induction false} ScopeAfterAdd<C>(sc: Scope, items: seq<Instr<C>>, ins: Instr<C>, strict: bool)
    ensures ScopeAfter(sc, items + [ins], strict) == ScopeStep(ScopeAfter(sc, items, strict), ins, strict)
  {
    assert (items + [ins])[..|items|] == items;
  }

  // ---- References to open groups ----

  /** A reference at b stands between the brackets of its group, opened at a. */
  ghost predicate IsOpenReference<C>(items: seq<Instr<C>>, a: int, b: int) {
    && 0 <= a < b < |items| && items[a].Bra? && Ket(items[a].k) !in items[a..b]
    && (items[b] == Back(items[a].k) || items[b] == BackStar(items[a].k))
  }

  /** What advance can execute: no misplaced repetition, and no reference to an open group. */
  ghost predicate Supported<C>(items: seq<Instr<C>>) {
    Unpatched(items) && forall a, b :: !IsOpenReference(items, a, b)
  }

  predicate ScopeOk(sc: Scope) {
    sc.Scope? ==>
      && (forall j :: 0 <= j < |sc.open| ==> sc.open[j] !in sc.closed)
      && (forall j, l :: 0 <= j < l < |sc.open| ==> sc.open[j] != sc.open[l])
  }

  lemma {:induction false} ScopeStepOk<C>(sc: Scope, ins: Instr<C>)
    requires ScopeOk(sc) && !ins.Patched?
    ensures ScopeOk(ScopeStep(sc, ins, false))
  {
    if sc.Scope? && ins.Bra? {
      var open := [ins.k] + sc.open;
      assert forall j :: 0 < j < |open| ==> open[j] == sc.open[j - 1] && open[j] in sc.open;
    } else if sc.Scope? && ins.Ket? && sc.open != [] {
      assert forall j :: 0 < j < |sc.open| ==> sc.open[j] != sc.open[0];
    }
  }

  /** Group k was opened at some place, and not closed since. */
  ghost predicate StandsOpen<C>(items: seq<Instr<C>>, k: nat, a: int) {
    0 <= a < |items| && items[a] == Bra(k) && Ket(k) !in items[a..]
  }

  lemma {:induction false} StandsOpenAdd<C>(items: seq<Instr<C>>, ins: Instr<C>, k: nat, a: int)
    ensures StandsOpen(items + [ins], k, a) <==>
            (ins == Bra(k) && a == |items|) || (ins != Ket(k) && StandsOpen(items, k, a))
  {
    var all := items + [ins];
    if 0 <= a < |items| {
      assert all[a..] == items[a..] + [ins];
    } else if a == |items| {
      assert all[a..] == [ins];
    }
  }

  /** The open groups are those opened and not closed since. */
  lemma {:induction false} OpenExactly<C>(items: seq<Instr<C>>, k: nat)
    requires Unpatched(items) && ScopeAfter(Outside, items, false).Scope?
    ensures ScopeOk(ScopeAfter(Outside, items, false))
    ensures k in ScopeAfter(Outside, items, false).open <==> exists a :: StandsOpen(items, k, a)
    decreases |items|
  {
    if items != [] {
      var front, ins := items[..|items| - 1], items[|items| - 1];
      var sc := ScopeAfter(Outside, front, false);
      assert items == front + [ins];
      OpenExactly(front, k);
      ScopeStepOk(sc, ins);
      forall a ensures StandsOpen(items, k, a) <==>
                       (ins == Bra(k) && a == |front|) || (ins != Ket(k) && StandsOpen(front, k, a))
      {
        StandsOpenAdd(front, ins, k, a);
      }
      OpenStep(sc, ins, k);
      if ins == Bra(k) { assert StandsOpen(items, k, |front|); }
    }
  }

  lemma {:induction false} OpenStep<C>(sc: Scope, ins: Instr<C>, k: nat)
    requires sc.Scope? && ScopeOk(sc) && !ins.Patched? && ScopeStep(sc, ins, false).Scope?
    ensures k in ScopeStep(sc, ins, false).open <==> ins == Bra(k) || (ins != Ket(k) && k in sc.open)
  {
    if ins.Ket? { assert sc.open == [ins.k] + sc.open[1..]; }
  }

  /** As far as references name closed groups, the two readings agree. */
  lemma {:induction false} ReadingsAgree<C>(items: seq<Instr<C>>)
    requires Unpatched(items) && ScopeAfter(Outside, items, false).Scope?
    ensures ScopeAfter(Outside, items, true).Scope? <==> forall a, b :: !IsOpenReference(items, a, b)
    ensures ScopeAfter(Outside, items, true).Scope? ==>
              ScopeAfter(Outside, items, true) == ScopeAfter(Outside, items, false)
    decreases |items|
  {
    if items != [] {
      var n := |items| - 1;
      var front, ins := items[..n], items[n];
      ReadingsAgree(front);
      forall a, b | b < n ensures IsOpenReference(items, a, b) <==> IsOpenReference(front, a, b) {
        if 0 <= a < b { assert items[a..b] == front[a..b]; }
      }
      if ins.Back? || ins.BackStar? {
        OpenExactly(front, ins.k);
        forall a ensures IsOpenReference(items, a, n) <==> StandsOpen(front, ins.k, a) {
          if 0 <= a < n { assert items[a..n] == front[a..]; }
        }
      }
      ReferenceAgrees(ScopeAfter(Outside, front, false), ins, front);
    }
  }

  /** One more item is read the same way strictly, unless it refers to an open group. */
  lemma {:induction false} ReferenceAgrees<C>(sc: Scope, ins: Instr<C>, front: seq<Instr<C>>)
    requires Unpatched(front) && sc == ScopeAfter(Outside, front, false)
    requires !ins.Patched? && ScopeStep(sc, ins, false).Scope?
    ensures ScopeStep(sc, ins, true).Scope? <==> !((ins.Back? || ins.BackStar?) && ins.k in sc.open)
    ensures ScopeStep(sc, ins, true).Scope? ==> ScopeStep(sc, ins, true) == ScopeStep(sc, ins, false)
  {
    if ins.Back? || ins.BackStar? { OpenExactly(front, ins.k); }
  }

  /** Balanced items are well scoped exactly when advance can execute them. */
  lemma {:induction false} ScopedExactly<C>(items: seq<Instr<C>>)
    requires ScopeAfter(Outside, items, false).Scope? && ScopeAfter(Outside, items, false).open == []
    ensures Scoped(items, [], {}) <==> Supported(items)
  {
    ScopedForwards(items, [], {});
    if Scoped(items, [], {}) { ScopedUnpatched(items, [], {}); }
    if Unpatched(items) { ReadingsAgree(items); }
  }

  // ---- What parsing keeps ----

  predicate ItemOk(ins: Instr<Class>) {
    match ins
    case Single(_, rep) => rep.Range? ==> rep.lo <= rep.hi
    case Dol => true
    case Bra(k) => k < NBRA
    case Ket(k) => k < NBRA
    case Back(k) => k < NBRA
    case BackStar(k) => k < NBRA
    case Patched(inner, rep) => ItemOk(inner) && !rep.Once?
  }

  predicate ItemsOk(items: seq<Instr<Class>>) {
    forall i :: 0 <= i < |items| ==> ItemOk(items[i])
  }

  /** Every group opened is on the stack or closed, never both. */
  predicate PartialOk(p: Partial) {
    && p.nbra == p.closed + |p.stack| <= NBRA
    && (forall j :: 0 <= j < |p.stack| ==> p.stack[j] < p.nbra)
    && (forall j, l :: 0 <= j < l < |p.stack| ==> p.stack[j] != p.stack[l])
    && ItemsOk(p.items)
    && ScopeAfter(Outside, p.items, false) == Scope(p.stack, set k | 0 <= k < p.nbra && k !in p.stack)
  }

  /** Replacing the last item by one with the same effect on scopes. */
  lemma {:induction false} SetLastOk(p: Partial, ins: Instr<Class>)
    requires PartialOk(p) && p.items != [] && ItemOk(ins)
    requires forall sc :: ScopeStep(sc, ins, false) == ScopeStep(sc, Last(p), false)
    ensures PartialOk(SetLast(p, ins))
  {
    ScopeAfterAdd(Outside, p.items[..|p.items| - 1], ins, false);
  }

  lemma {:induction false} OpenOk(p: Partial)
    requires PartialOk(p) && p.nbra < NBRA
    ensures Extend(p, OpenGroup).Good? && PartialOk(Extend(p, OpenGroup).value)
  {
    ScopeAfterAdd(Outside, p.items, Bra(p.nbra), false);
    var q := Extend(p, OpenGroup).value;
    assert forall k :: k in q.stack <==> k == p.nbra || k in p.stack;
    assert (set k | 0 <= k < p.nbra && k !in p.stack) == (set k | 0 <= k < q.nbra && k !in q.stack);
  }

  lemma {:induction false} CloseOk(p: Partial)
    requires PartialOk(p) && p.stack != []
    ensures Extend(p, CloseGroup).Good? && PartialOk(Extend(p, CloseGroup).value)
  {
    ScopeAfterAdd(Outside, p.items, Ket(p.stack[0]), false);
    var q := Extend(p, CloseGroup).value;
    assert p.stack == [p.stack[0]] + q.stack;
    assert (set k | 0 <= k < p.nbra && k !in p.stack) + {p.stack[0]} == (set k | 0 <= k < q.nbra && k !in q.stack);
  }

  lemma {:induction false} AddOk(p: Partial, ins: Instr<Class>)
    requires PartialOk(p) && ItemOk(ins)
    requires ins.Single? || ins.Dol? || (ins.Back? && ins.k < p.closed)
    ensures PartialOk(Add(p, ins))
  {
    ScopeAfterAdd(Outside, p.items, ins, false);
  }

  lemma {:induction false} StarredOk(ins: Instr<Class>)
    requires ItemOk(ins)
    ensures ItemOk(Starred(ins)) && forall sc :: ScopeStep(sc, Starred(ins), false) == ScopeStep(sc, ins, false)
  {}

  lemma {:induction false} RangedOk(ins: Instr<Class>, lo: byte, hi: byte)
    requires ItemOk(ins) && lo <= hi
    ensures ItemOk(Ranged(ins, lo, hi))
    ensures forall sc :: ScopeStep(sc, Ranged(ins, lo, hi), false) == ScopeStep(sc, ins, false)
  {}

  lemma {:induction false} ExtendOk(p: Partial, piece: Piece)
    requires PartialOk(p) && Extend(p, piece).Good?
    requires piece.Interval? ==> piece.lo <= piece.hi
    ensures PartialOk(Extend(p, piece).value)
  {
    match piece
    case Elem(cls) => AddOk(p, Single(cls, Once));
    case Dollar => AddOk(p, Dol);
    case OpenGroup => OpenOk(p);
    case CloseGroup => CloseOk(p);
    case Digit(k) => AddOk(p, Back(k));
    case Asterisk =>
      if p.items == [] || Last(p).Bra? || Last(p).Ket? {
        AddOk(p, Single(Lit(Ch('*')), Once));
      } else {
        StarredOk(p.items[|p.items| - 1]);
        SetLastOk(p, Starred(Last(p)));
      }
    case Interval(lo, hi) =>
      if p.items != [] {
        RangedOk(p.items[|p.items| - 1], lo, hi);
        SetLastOk(p, Ranged(Last(p), lo, hi));
      }
    case Stop =>
  }

  lemma {:induction false} LexIntervalOrdered(src: seq<letter>, i: nat, eof: byte, sed: bool, first: bool)
    requires i <= |src|
    ensures var r := LexPiece(src, i, eof, sed, first); r.Got? && r.value.Interval? ==> r.value.lo <= r.value.hi
  {}

  /**
   * Accepted items are well formed.  Groups balance and every reference names one, which is
   * closed, so that advance can execute the code, exactly when the items are supported.
   */
  lemma {:induction false} ParseScoped(src: seq<letter>, i: nat, eof: byte, sed: bool, p: Partial)
    requires PartialOk(p)
    requires ParseFrom(src, i, eof, sed, p).Good?
    ensures var items := ParseFrom(src, i, eof, sed, p).value;
      ItemsOk(items) && (Scoped(items, [], {}) <==> Supported(items))
    decreases |src| + 1 - i
  {
    var lexed := LexPiece(src, i, eof, sed, p.items == []);
    LexIntervalOrdered(src, i, eof, sed, p.items == []);
    if lexed.value.Stop? {
      ScopedExactly(p.items);
    } else {
      ExtendOk(p, lexed.value);
      ParseScoped(src, lexed.next, eof, sed, Extend(p, lexed.value).value);
    }
  }

  lemma {:induction false} StartOk()
    ensures PartialOk(Start)
  {
    assert (set k: nat | 0 <= k < 0 && k !in Start.stack) == {};
  }

  // ---- Trees ----

  predicate Balanced(items: seq<Instr<Class>>, open: seq<nat>) {
    if items == [] then open == []
    else
      match items[0]
      case Bra(k) => Balanced(items[1..], [k] + open)
      case Ket(k) => open != [] && open[0] == k && Balanced(items[1..], open[1..])
      case Patched(_, _) => false
      case _ => Balanced(items[1..], open)
  }

  lemma {:induction false} ScopedBalanced(items: seq<Instr<Class>>, open: seq<nat>, closed: set<nat>)
    requires Scoped(items, open, closed)
    ensures Balanced(items, open)
    decreases |items|
  {
    if items != [] {
      match items[0]
      case Bra(k) => ScopedBalanced(items[1..], [k] + open, closed);
      case Ket(k) => ScopedBalanced(items[1..], open[1..], closed + {k});
      case Patched(_, _) =>
      case _ => ScopedBalanced(items[1..], open, closed);
    }
  }

  /** The tree of the items up to an unmatched closing bracket, and the items from there. */
  function Grow(items: seq<Instr<Class>>): (r: (Tree, seq<Instr<Class>>))
    ensures |r.1| <= |items|
    decreases |items|
  {
    if items == [] || items[0].Ket? then (Empty, items)
    else
      var (t, rest) := Grow(items[1..]);
      match items[0]
      case Single(cls, rep) => (Atom(cls, rep, t), rest)
      case Dol => (Eol(t), rest)
      case Bra(k) =>
        if rest == [] then (Group(k, t, Empty), [])
        else var (next, after) := Grow(rest[1..]); (Group(k, t, next), after)
      case Back(k) => (Ref(k, t), rest)
      case BackStar(k) => (RefStar(k, t), rest)
      case Patched(_, _) => (t, rest)
  }

  /** Growing a tree loses nothing: flattening gives the items back. */
  lemma {:induction false} GrowFlattens(items: seq<Instr<Class>>, open: seq<nat>)
    requires Balanced(items, open)
    ensures var (t, rest) := Grow(items);
      && items == Flatten(t) + rest
      && Balanced(rest, open)
      && (if open == [] then rest == [] else rest != [] && rest[0] == Ket(open[0]))
    decreases |items|
  {
    if items == [] || items[0].Ket? {
      assert items == [] + items;
    } else if items[0].Bra? {
      GrowGroup(items, open);
    } else {
      GrowFlattens(items[1..], open);
      var (t, rest) := Grow(items[1..]);
      ConsConcat(items, Flatten(t), rest);
    }
  }

  lemma {:induction false} ConsConcat(items: seq<Instr<Class>>, a: seq<Instr<Class>>, b: seq<Instr<Class>>)
    requires items != [] && items[1..] == a + b
    ensures items == [items[0]] + a + b
  {
    assert items == [items[0]] + items[1..];
  }

  lemma {:induction false} GroupConcat(items: seq<Instr<Class>>, a: seq<Instr<Class>>, rest: seq<Instr<Class>>,
                                       b: seq<Instr<Class>>, c: seq<Instr<Class>>)
    requires items != [] && items[1..] == a + rest && rest != [] && rest[1..] == b + c
    ensures items == [items[0]] + a + [rest[0]] + b + c
  {
    assert items == [items[0]] + items[1..] && rest == [rest[0]] + rest[1..];
  }

  lemma {:induction false} GrowGroup(items: seq<Instr<Class>>, open: seq<nat>)
    requires items != [] && items[0].Bra? && Balanced(items, open)
    ensures var (t, rest) := Grow(items);
      && items == Flatten(t) + rest
      && Balanced(rest, open)
      && (if open == [] then rest == [] else rest != [] && rest[0] == Ket(open[0]))
    decreases |items|, 0
  {
    var k := items[0].k;
    GrowFlattens(items[1..], [k] + open);
    var (body, rest) := Grow(items[1..]);
    assert ([k] + open)[1..] == open;
    GrowFlattens(rest[1..], open);
    var (next, after) := Grow(rest[1..]);
    GroupConcat(items, Flatten(body), rest, Flatten(next), after);
  }

  /** The syntax tree of a sequence of items; a patched one has no place in it. */
  function TreeOf(items: seq<Instr<Class>>): Tree {
    Grow(items).0
  }

  lemma {:induction false} TreeOfFlattens(items: seq<Instr<Class>>)
    requires Scoped(items, [], {})
    ensures Flatten(TreeOf(items)) == items
  {
    ScopedBalanced(items, [], {});
    GrowFlattens(items, []);
  }
}
