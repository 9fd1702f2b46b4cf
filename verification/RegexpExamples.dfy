/** Texts that show where compile or advance falls short. */
module RegexpExamples {
  import opened RegexpBits
  import opened RegexpTree
  import opened RegexpCode
  import opened RegexpMeaning
  import opened RegexpSyntax
  import opened RegexpGrammar
  import opened RegexpEmit
  import opened RegexpSized
  import opened RegexpSpelling
  import opened RegexpReading
  import opened RegexpTheorems
  import opened RegexpTermination
  import Compiling = RegexpCompiler

  /** A step of parsing that leads to a known state. */
  lemma {:induction false} Leads(src: text, i: nat, sed: bool, p: Partial, piece: Piece, next: nat, q: Partial)
    requires Lexes(src, i, sed, p.items == [], piece, next) && !piece.Stop? && Extend(p, piece).Good?
    requires var r := Extend(p, piece).value;
      r.items == q.items && r.stack == q.stack && r.nbra == q.nbra && r.closed == q.closed
    ensures ParseFrom(src, i, 0, sed, p) == ParseFrom(src, next, 0, sed, q)
  {
    ParseStep(src, i, sed, p, piece, next);
  }

  // ---- A back-reference that compile should have refused ----

  /** \(\(a\)\1\): one group is closed, so \1 passes the test, but group 1 is still open. */
  const OPENREF: text := [92, 40, 92, 40, 97, 92, 41, 92, 49, 92, 41]

  const OPENREFITEMS: seq<Instr<Class>> := [Bra(0), Bra(1), Single(Lit(97), Once), Ket(1), Back(0), Ket(0)]

  /** It is accepted, but advance would have to read the end of a group that has none yet. */
  lemma {:induction false} OpenReference(sed: bool)
    ensures Parse(OPENREF, 0, sed) == Good(OPENREFITEMS) && !Supported(OPENREFITEMS)
  {
    var items := OPENREFITEMS;
    assert IsOpenReference(items, 0, 4);
    OpenReferenceStart(sed);
    OpenReferenceEnd(sed, Partial([Bra(0), Bra(1), Single(Lit(97), Once)], [1, 0], 2, 0));
    assert [Bra(0), Bra(1), Single(Lit(97), Once)] + [Ket(1), Back(0), Ket(0)] == items;
  }

  lemma {:induction false} OpenReferenceStart(sed: bool)
    ensures ParseFrom(OPENREF, 0, 0, sed, Start) ==
            ParseFrom(OPENREF, 5, 0, sed, Partial([Bra(0), Bra(1), Single(Lit(97), Once)], [1, 0], 2, 0))
  {
    var p1, p2 := Partial([Bra(0)], [0], 1, 0), Partial([Bra(0), Bra(1)], [1, 0], 2, 0);
    Leads(OPENREF, 0, sed, Start, OpenGroup, 2, p1);
    Leads(OPENREF, 2, sed, p1, OpenGroup, 4, p2);
    Leads(OPENREF, 4, sed, p2, Elem(Lit(97)), 5, Partial([Bra(0), Bra(1), Single(Lit(97), Once)], [1, 0], 2, 0));
  }

  lemma {:induction false} OpenReferenceEnd(sed: bool, p: Partial)
    requires p.items != [] && p.stack == [1, 0] && p.closed == 0
    ensures ParseFrom(OPENREF, 5, 0, sed, p) == Good(p.items + [Ket(1), Back(0), Ket(0)])
  {
    var q1 := Extend(p, CloseGroup).value;
    var q2 := Extend(q1, Digit(0)).value;
    ParseStep(OPENREF, 5, sed, p, CloseGroup, 7);
    ParseStep(OPENREF, 7, sed, q1, Digit(0), 9);
    ParseStep(OPENREF, 9, sed, q2, CloseGroup, 11);
    ParseEnd(OPENREF, sed, Extend(q2, CloseGroup).value);
    assert p.items + [Ket(1)] + [Back(0)] + [Ket(0)] == p.items + [Ket(1), Back(0), Ket(0)];
  }

  /** The code of its first and its last items. */
  lemma {:induction false} OpenReferenceFront()
    ensures ItemsOk(OPENREFITEMS) && Emit(OPENREFITEMS[..3]) == [CBRA, 0, CBRA, 1, CCHR, 97]
  {
    var items := OPENREFITEMS;
    assert items[..0] == [];
    ItemBytesSingle(Lit(97), Once);
    EmitNext(items, 0, [], Bra(0), [CBRA, 0]);
    EmitNext(items, 1, [CBRA, 0], Bra(1), [CBRA, 1]);
    EmitNext(items, 2, [CBRA, 0, CBRA, 1], Single(Lit(97), Once), [CCHR, 97]);
  }

  lemma {:induction false} OpenReferenceCode()
    ensures ItemsOk(OPENREFITEMS)
    ensures Emit(OPENREFITEMS) == [CBRA, 0, CBRA, 1, CCHR, 97, CKET, 1, CBACK, 0, CKET, 0]
  {
    var items := OPENREFITEMS;
    assert items[..6] == items;
    OpenReferenceFront();
    EmitNext(items, 3, [CBRA, 0, CBRA, 1, CCHR, 97], Ket(1), [CKET, 1]);
    EmitNext(items, 4, [CBRA, 0, CBRA, 1, CCHR, 97, CKET, 1], Back(0), [CBACK, 0]);
    EmitNext(items, 5, [CBRA, 0, CBRA, 1, CCHR, 97, CKET, 1, CBACK, 0], Ket(0), [CKET, 0]);
  }

  lemma {:induction false} EmitNext(items: seq<Instr<Class>>, n: nat, code: seq<byte>, ins: Instr<Class>, b: seq<byte>)
    requires n < |items| && ItemsOk(items) && items[n] == ins
    requires Emit(items[..n]) == code && ItemBytes(ins) == b
    ensures Emit(items[..n + 1]) == code + b
  {
    assert items[..n + 1][..n] == items[..n];
  }

  /** compile accepts it, and writes a reference to the group being matched. */
  method CompileOpenReference(sed: bool) returns (r: Compiling.Compilation, code: seq<byte>)
    ensures r == Compiling.Compiled(13)
    ensures code == [CBRA, 0, CBRA, 1, CCHR, 97, CKET, 1, CBACK, 0, CKET, 0, CCEOF]
  {
    OpenReference(sed);
    OpenReferenceCode();
    StartOk();
    SizedIsParse(OPENREF, 0, 0, sed, Start, 13);
    EmitIsEncode(OPENREFITEMS);
    var buf := new byte[14];
    var c := new Compiling.Compiler(buf, 13);
    r := c.Compile(OPENREF, 0, sed);
    code := buf[..13];
  }

  // ---- A search that does not return ----

  /**
   * A text that compiles to a supported pattern: some subject makes Find return NoAnswer
   * exactly when the pattern's tree says it can.
   */
  lemma {:induction false} TextHangsExactly(src: text, eof: byte, size: nat)
    requires Sized(src, eof, false, size).Good? && Supported(Sized(src, eof, false, size).value)
    ensures var t := TreeOf(Sized(src, eof, false, size).value);
      (exists s: text :: IsUnanswered(t, IsAnchored(src), s)) <==> CanHang(t)
  {
    UnansweredExactly(TreeOf(Sized(src, eof, false, size).value), IsAnchored(src));
  }

  /** \(a*\)\1* */
  const HANG: text := [92, 40, 97, 42, 92, 41, 92, 49, 42]

  const HANGTREE := Group(0, Atom(Lit(97), Star, Empty), RefStar(0, Empty))

  const HANGITEMS: seq<Instr<Class>> := [Bra(0), Single(Lit(97), Star), Ket(0), BackStar(0)]

  lemma {:induction false} HangStart(sed: bool)
    ensures ParseFrom(HANG, 0, 0, sed, Start) ==
            ParseFrom(HANG, 3, 0, sed, Partial([Bra(0), Single(Lit(97), Once)], [0], 1, 0))
  {
    var p := Partial([Bra(0)], [0], 1, 0);
    Leads(HANG, 0, sed, Start, OpenGroup, 2, p);
    Leads(HANG, 2, sed, p, Elem(Lit(97)), 3, Partial([Bra(0), Single(Lit(97), Once)], [0], 1, 0));
  }

  lemma {:induction false} HangMiddle(sed: bool)
    ensures ParseFrom(HANG, 3, 0, sed, Partial([Bra(0), Single(Lit(97), Once)], [0], 1, 0)) ==
            ParseFrom(HANG, 6, 0, sed, Partial(HANGITEMS[..3], [], 1, 1))
  {
    var p := Partial([Bra(0), Single(Lit(97), Star)], [0], 1, 0);
    Leads(HANG, 3, sed, Partial([Bra(0), Single(Lit(97), Once)], [0], 1, 0), Asterisk, 4, p);
    Leads(HANG, 4, sed, p, CloseGroup, 6, Partial(HANGITEMS[..3], [], 1, 1));
  }

  lemma {:induction false} HangEnd(sed: bool, p: Partial)
    requires p == Partial(HANGITEMS[..3], [], 1, 1)
    ensures ParseFrom(HANG, 6, 0, sed, p) == Good(HANGITEMS)
  {
    var q, all := Add(p, Back(0)), p.(items := HANGITEMS);
    Leads(HANG, 6, sed, p, Digit(0), 8, q);
    Leads(HANG, 8, sed, q, Asterisk, 9, all);
    ParseEnd(HANG, sed, all);
  }

  lemma {:induction false} HangSupported()
    ensures Supported(HANGITEMS)
  {
    assert HANGITEMS[0..3][2] == Ket(0);
    assert forall a, b :: IsOpenReference(HANGITEMS, a, b) ==> a == 0 && b == 3;
  }

  lemma {:induction false} HangParse(sed: bool)
    ensures Parse(HANG, 0, sed) == Good(HANGITEMS)
  {
    HangStart(sed);
    HangMiddle(sed);
    HangEnd(sed, Partial(HANGITEMS[..3], [], 1, 1));
  }

  lemma {:induction false} HangTree()
    ensures Flatten(HANGTREE) == HANGITEMS && CanHang(HANGTREE)
  {
    var body := Atom(Lit(97), Star, Empty);
    assert Flatten(body) == [Single(Lit(97), Star)];
    assert Look(body, map[], false) == Clear(0, map[], false);
  }

  /** Compiled, it is a supported pattern that some subject keeps busy for ever. */
  lemma {:induction false} HangExample(sed: bool)
    ensures Parse(HANG, 0, sed) == Good(Flatten(HANGTREE)) && Supported(Flatten(HANGTREE)) && CanHang(HANGTREE)
  {
    HangParse(sed);
    HangSupported();
    HangTree();
  }
}
