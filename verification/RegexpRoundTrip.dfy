/**
 * Every tree that can be spelled is what its spelling parses to, so the pattern language
 * means what it is said to mean.
 */
module RegexpRoundTrip {
  import opened RegexpBits
  import opened RegexpTree
  import opened RegexpCode
  import opened RegexpMeaning
  import opened RegexpSyntax
  import opened RegexpGrammar
  import opened RegexpSpelling
  import opened RegexpReading

  /** One element before others. */
  lemma {:induction false} GrowCons(ins: Instr<Class>, more: seq<Instr<Class>>, t: Tree, rest: seq<Instr<Class>>)
    requires !ins.Bra? && !ins.Ket? && Grow(more) == (t, rest)
    ensures Grow([ins] + more) ==
      (match ins
       case Single(cls, rep) => Atom(cls, rep, t)
       case Dol => Eol(t)
       case Back(k) => Ref(k, t)
       case BackStar(k) => RefStar(k, t)
       case _ => t, rest)
  {
    assert ([ins] + more)[1..] == more;
  }

  lemma {:induction false} GrowGroup(k: nat, more: seq<Instr<Class>>, body: Tree, next: Tree, after: seq<Instr<Class>>,
                                     rest: seq<Instr<Class>>)
    requires Grow(more) == (body, [Ket(k)] + after) && Grow(after) == (next, rest)
    ensures Grow([Bra(k)] + more) == (Group(k, body, next), rest)
  {
    assert ([Bra(k)] + more)[1..] == more && ([Ket(k)] + after)[1..] == after;
  }

  /** Growing a tree inverts flattening it. */
  lemma {:induction false} GrowInverts(t: Tree, rest: seq<Instr<Class>>)
    requires rest == [] || rest[0].Ket?
    ensures Grow(Flatten(t) + rest) == (t, rest)
    decreases t, 1
  {
    match t
    case Empty => assert Flatten(t) + rest == rest;
    case Atom(cls, rep, next) => ConsInverts(Single(cls, rep), next, rest);
    case Eol(next) => ConsInverts(Dol, next, rest);
    case Group(k, body, next) => GroupInverts(k, body, next, rest);
    case Ref(k, next) => ConsInverts(Back(k), next, rest);
    case RefStar(k, next) => ConsInverts(BackStar(k), next, rest);
  }

  lemma {:induction false} GroupInverts(k: nat, body: Tree, next: Tree, rest: seq<Instr<Class>>)
    requires rest == [] || rest[0].Ket?
    ensures Grow([Bra(k)] + Flatten(body) + [Ket(k)] + Flatten(next) + rest) == (Group(k, body, next), rest)
    decreases Group(k, body, next), 0
  {
    var after := Flatten(next) + rest;
    var more := Flatten(body) + ([Ket(k)] + after);
    GrowInverts(next, rest);
    GrowInverts(body, [Ket(k)] + after);
    GrowGroup(k, more, body, next, after, rest);
    Reassociate([Bra(k)], Flatten(body), [Ket(k)], Flatten(next), rest);
  }

  lemma {:induction false} Reassociate<T>(a: seq<T>, b: seq<T>, c: seq<T>, d: seq<T>, e: seq<T>)
    ensures a + b + c + d + e == a + (b + (c + (d + e)))
  {}

  lemma {:induction false} ConsInverts(ins: Instr<Class>, next: Tree, rest: seq<Instr<Class>>)
    requires !ins.Bra? && !ins.Ket? && (rest == [] || rest[0].Ket?)
    ensures Grow([ins] + Flatten(next) + rest) ==
      (match ins
       case Single(cls, rep) => Atom(cls, rep, next)
       case Dol => Eol(next)
       case Back(k) => Ref(k, next)
       case BackStar(k) => RefStar(k, next)
       case _ => next, rest)
    decreases next, 2
  {
    GrowInverts(next, rest);
    assert [ins] + Flatten(next) + rest == [ins] + (Flatten(next) + rest);
    GrowCons(ins, Flatten(next) + rest, next, rest);
  }

  /** Every tree that can be spelled is what its spelling means, anchored or not. */
  lemma {:induction false} SpellingRoundTrip(t: Tree, anchored: bool, sed: bool)
    requires Spellable(Flatten(t), [], 0, 0)
    ensures var src := SpellPattern(anchored, Flatten(t));
      && IsAnchored(src) == anchored
      && Parse(src, 0, sed) == Good(Flatten(t))
      && TreeOf(Flatten(t)) == t
  {
    var items := Flatten(t);
    var pieces := PiecesOf(items);
    PiecesBuildAll(items, Start);
    PatternReads(anchored, items);
    ParseSpelled(SpellPattern(anchored, items), if anchored then 1 else 0, sed, Start, pieces);
    assert Start.items + items == items;
    GrowInverts(t, []);
    assert items + [] == items;
  }

  lemma {:induction false} PatternReads(anchored: bool, items: seq<Instr<Class>>)
    requires Spellable(items, [], 0, 0)
    ensures
      var src, i := SpellPattern(anchored, items), if anchored then 1 else 0;
      var w := Join(SpellPiece, PiecesOf(items));
      IsAnchored(src) == anchored && Reads(src, i, w) && i + |w| == |src|
  {
    SpelledStart(items);
    WholeReads(if anchored then [Ch('^')] else [], Join(SpellPiece, PiecesOf(items)));
  }

  lemma {:induction false} WholeReads(pre: text, w: text)
    ensures Reads(pre + w, |pre|, w)
    decreases |w|
  {
    if w != [] {
      assert pre + w == (pre + [w[0]]) + w[1..];
      WholeReads(pre + [w[0]], w[1..]);
    }
  }

  /** No spelling begins with a circumflex of its own. */
  lemma {:induction false} SpelledStart(items: seq<Instr<Class>>)
    requires Spellable(items, [], 0, 0)
    ensures var w := Join(SpellPiece, PiecesOf(items)); w != [] ==> w[0] != Ch('^')
  {
    if items != [] {
      var first := Pieces(items[0])[0];
      assert PiecesOf(items)[0] == first;
      assert SpellPiece(first) != [] && SpellPiece(first)[0] != Ch('^');
    }
  }
}
