/** The command-summary table, updated in place. */
module AcctCms {
  import opened Probing
  import opened AcctCmsSpec
  import opened AcctCmsLaws

  const OTHER: Name := ['*' as int, '*' as int, '*' as int, 'o' as int, 't' as int, 'h' as int, 'e' as int, 'r' as int]

  lemma {:induction false} OtherSpells()
    ensures |OTHER| == 8 && forall i :: 0 <= i < 8 ==> OTHER[i] == "***other"[i] as int
  {}

  predicate AllNamed(recs: seq<Pcms>) {
    forall i :: 0 <= i < |recs| ==> recs[i].name != []
  }

  /**
   * What the summary of some records should be: each command once; the grand totals those of
   * the records; and, besides ***other, exactly the commands run at least twice.
   */
  ghost predicate IsSummary(out: seq<Pcms>, recs: seq<Pcms>) {
    && Distinct(out)
    && (forall c, prime :: Grand(out, c, prime) == SumUse(recs, c, prime))
    && (forall e: Pcms :: e.name != OTHER ==> (e in out <==> IsFrequent(e, Tally(map[], recs))))
  }

  predicate IsFrequent(e: Pcms, m: map<Name, Use>) {
    e.name != [] && e.name in m && m[e.name] == e.use && Processes(e.use) > 1
  }

  /** The names that some records are entered under. */
  function Names(recs: seq<Pcms>): set<Name> {
    set i | 0 <= i < |recs| :: Clean(recs[i].name)
  }

  /** The first n characters, or all of them. */
  function Upto(name: seq<int>, n: nat): seq<int> {
    if n < |name| then name[..n] else name
  }

  lemma {:induction false} UptoNext(name: Name, n: nat)
    ensures Upto(name, n + 1) == if n < |name| then Upto(name, n) + [name[n]] else Upto(name, n)
  {}

  class Commands {
    const pcm: array<Pcms>
    var csize: nat
    ghost var known: map<Name, Use>

    ghost predicate Valid()
      reads this, pcm
    {
      csize == pcm.Length && Tabled(pcm[..], known)
    }

    constructor ()
      ensures Valid() && known == map[] && fresh(pcm)
      ensures forall p :: 0 <= p < pcm.Length ==> pcm[p] == Pcms([], Zero)
    {
      pcm := new Pcms[CSIZE](_ => Pcms([], Zero));
      csize := CSIZE;
      known := map[];
      new;
      ClearTabled(pcm[..]);
    }

    /** The cleaning and hashing loop of enter. */
    method Hash(raw: Name) returns (name: Name, i: nat)
      ensures name == Clean(raw) && i == HashTo(name, NAMESIZE) && i < 0x8000_0000
    {
      i := 0;
      var buf: seq<int> := [];
      ghost var clean := Clean(raw);
      for j := 0 to NAMESIZE
        invariant buf == Upto(clean, j) && i == HashTo(clean, j)
      {
        var c := if j < |raw| then raw[j] else 0;
        if c != 0 && c <= 31 { c := '?' as int; }
        assert c == CharAt(clean, j);
        HashBound(clean, j + 1);
        UptoNext(clean, j);
        if j < |raw| { buf := buf + [c]; }
        i := i * 7 + c;
      }
      HashBound(clean, NAMESIZE);
      name := buf;
    }

    /** The probing loop of enter: -1 where the program would enlarge its table. */
    method Probe(name: Name, start: nat) returns (i: int)
      requires pcm.Length == CSIZE && csize == CSIZE && start == Home(name)
      ensures i == -1 || 0 <= i < CSIZE
      ensures StopsAt(Slots(Cells(pcm[..])), Home(name), name, i)
      ensures i >= 0 ==> pcm[i].name in {name, []}
    {
      i := start;
      ghost var slots := Slots(Cells(pcm[..]));
      var j := 0;
      while pcm[i].name != [] && j != csize
        invariant 0 <= j <= csize && i == Wrap(start, j, CSIZE)
        invariant Passed(slots, start, j, name)
        decreases csize - j
      {
        assert slots[i] == Held(pcm[i].name);
        if pcm[i].name == name {
          DistWrap(start, j, CSIZE);
          return;
        }
        WrapStep(start, j, CSIZE);
        i := (i + 1) % csize;
        j := j + 1;
      }
      if j == csize { return -1; }
      assert slots[i] == Free;
      DistWrap(start, j, CSIZE);
    }

    /** enter: the cell of the record's name, or -1. */
    method Enter(rec: Pcms) returns (p: int)
      requires pcm.Length == CSIZE && csize == CSIZE
      modifies this`known, pcm
      ensures p == -1 || 0 <= p < CSIZE
      ensures p == -1 ==> pcm[..] == old(pcm[..]) && known == old(known)
      ensures p >= 0 ==> known == Charge(old(known), Clean(rec.name), rec.use)
      ensures p >= 0 ==> pcm[..] == Entered(old(pcm[..]), p, Clean(rec.name), rec.use)
      ensures p >= 0 ==> pcm[p].name == Clean(rec.name)
      ensures rec.name != [] && Tabled(old(pcm[..]), old(known)) ==> Valid()
      ensures p >= 0 ==> StopsAt(Slots(Cells(old(pcm[..]))), Home(Clean(rec.name)), Clean(rec.name), p)
      ensures rec.name != [] && Tabled(old(pcm[..]), old(known)) ==>
                (p >= 0 <==> |old(known).Keys + {Clean(rec.name)}| <= CSIZE)
    {
      var name, h := Hash(rec.name);
      p := Probe(name, h % csize);
      ghost var good := rec.name != [] && Valid();
      if p == -1 {
        if good { NoSpace(pcm[..], known, name); }
        return;
      }
      if good { HasSpace(pcm[..], known, p, name, rec.use); }
      if pcm[p].name == [] { pcm[p] := pcm[p].(name := name); }
      pcm[p] := pcm[p].(use := Add(pcm[p].use, rec.use));
      known := Charge(known, name, rec.use);
    }

    /**
     * Enters records until one does not fit.  The table holds the totals by cleaned name
     * exactly when every record entered has a name.
     */
    method EnterAll(recs: seq<Pcms>) returns (done: nat)
      requires Valid() && known == map[]
      requires forall q :: 0 <= q < CSIZE ==> pcm[q].name == []
      modifies this`known, pcm
      ensures csize == CSIZE && done <= |recs| && known == Tally(map[], recs[..done])
      ensures Tabled(pcm[..], known) <==> AllNamed(recs[..done])
      ensures AllNamed(recs) ==> (done == |recs| <==> |Names(recs)| <= CSIZE)
      ensures AllNamed(recs[..done]) ==> known.Keys == Names(recs[..done])
      ensures AllNamed(recs[..done]) ==>
                forall c, prime :: Grand(pcm[..], c, prime) == SumUse(recs[..done], c, prime)
    {
      done := 0;
      GrandClear(pcm[..]);
      while done < |recs|
        invariant done <= |recs| && csize == pcm.Length == CSIZE && known == Tally(map[], recs[..done])
        invariant AllNamed(recs[..done]) ==> Valid()
        invariant AllNamed(recs[..done]) ==>
                    forall c, prime :: Grand(pcm[..], c, prime) == SumUse(recs[..done], c, prime)
      {
        ghost var before, known0 := pcm[..], known;
        assert recs[..done + 1][..done] == recs[..done];
        var p := Enter(recs[done]);
        if p == -1 {
          if AllNamed(recs) { NamesExceed(recs, done); }
          break;
        }
        if AllNamed(recs[..done + 1]) {
          assert recs[..done + 1][done] == recs[done];
          assert AllNamed(recs[..done]);
          GrandNext(before, known0, p, recs, done);
        }
        done := done + 1;
      }
      if !AllNamed(recs[..done]) { NeverTabled(pcm[..], recs[..done]); }
      TallyKeys(recs[..done]);
      if done == |recs| {
        assert recs[..done] == recs;
        if AllNamed(recs) { TabledSize(pcm[..], known); }
      }
    }

    /** The program with option -j; false where it would enlarge its table. */
    method Run(recs: seq<Pcms>) returns (ok: bool)
      requires Valid() && known == map[]
      requires forall q :: 0 <= q < CSIZE ==> pcm[q].name == []
      modifies this, pcm
      ensures csize <= pcm.Length
      ensures AllNamed(recs) ==> (ok <==> |Names(recs) + {OTHER}| <= 5001)
      ensures ok && AllNamed(recs) ==> IsSummary(pcm[..csize], recs)
    {
      var done := EnterAll(recs);
      if done < |recs| {
        Subset(Names(recs), Names(recs) + {OTHER});
        return false;
      }
      assert recs[..done] == recs;
      ghost var list, m := pcm[..], known;
      var j := FixJunk();
      if j == -1 { return false; }
      Squeeze();
      ok := true;
      if AllNamed(recs) { SummaryOf(list, m, j, recs); }
    }

    /** fixjunk: fold every command run at most once into ***other. */
    method FixJunk() returns (j: int)
      requires csize == pcm.Length == CSIZE
      modifies this`known, pcm
      ensures csize == CSIZE && (j == -1 || 0 <= j < CSIZE)
      ensures known == if j == -1 then old(known) else Charge(old(known), OTHER, Zero)
      ensures Tabled(old(pcm[..]), old(known)) ==> (j >= 0 <==> |old(known).Keys + {OTHER}| <= CSIZE)
      ensures j >= 0 ==>
                && Entered(old(pcm[..]), j, OTHER, Zero)[j].name == OTHER
                && (Tabled(old(pcm[..]), old(known)) ==> Tabled(Entered(old(pcm[..]), j, OTHER, Zero), known))
                && pcm[..] == Folded(Entered(old(pcm[..]), j, OTHER, Zero), j, CSIZE)
    {
      assert Clean(OTHER) == OTHER;
      j := Enter(Pcms(OTHER, Zero));
      if j != -1 { Fold(j); }
    }

    /** The loop of fixjunk, into cell j. */
    method Fold(j: nat)
      requires j < csize == pcm.Length
      modifies pcm
      ensures pcm[..] == Folded(old(pcm[..]), j, pcm.Length)
    {
      for i := 0 to csize
        invariant pcm[..] == Folded(old(pcm[..]), j, i)
      {
        if i != j && pcm[i].name != [] && pcm[i].use.pc.0 + pcm[i].use.pc.1 <= 1 {
          pcm[j] := pcm[j].(use := Add(pcm[j].use, pcm[i].use));
          pcm[i] := pcm[i].(name := []);
        }
      }
    }

    /** squeeze: move the entries in use to the front. */
    method Squeeze()
      requires csize == pcm.Length
      modifies this`csize, pcm
      ensures csize <= pcm.Length && pcm[..csize] == Squeezed(old(pcm[..]))
    {
      var k := 0;
      for i := 0 to csize
        invariant k <= i && csize == pcm.Length
        invariant pcm[..k] == Squeezed(old(pcm[..])[..i])
        invariant forall q :: i <= q < pcm.Length ==> pcm[q] == old(pcm[..])[q]
      {
        assert old(pcm[..])[..i + 1][..i] == old(pcm[..])[..i];
        if pcm[i].name != [] {
          pcm[k] := pcm[i];
          k := k + 1;
        }
      }
      assert old(pcm[..])[..csize] == old(pcm[..]);
      csize := k;
    }
  }

  /** No search ends, so another name is one too many. */
  lemma {:induction false} NoSpace(list: seq<Pcms>, m: map<Name, Use>, name: Name)
    requires Tabled(list, m) && name != [] && StopsAt(Slots(Cells(list)), Home(name), name, -1)
    ensures |m.Keys + {name}| > CSIZE
  {
    FullTabled(list, m, name);
    TabledSize(list, m);
  }

  /** The search ends, so there is room for the name. */
  lemma {:induction false} HasSpace(list: seq<Pcms>, m: map<Name, Use>, p: nat, name: Name, use: Use)
    requires Tabled(list, m) && name != [] && p < |list| && StopsAt(Slots(Cells(list)), Home(name), name, p)
    ensures Tabled(Entered(list, p, name, use), Charge(m, name, use))
    ensures |m.Keys + {name}| <= CSIZE
  {
    EnteredTabled(list, m, p, name, use);
    TabledSize(Entered(list, p, name, use), Charge(m, name, use));
    assert Charge(m, name, use).Keys == m.Keys + {name};
  }

  lemma {:induction false} TallyKeys(recs: seq<Pcms>)
    ensures Tally(map[], recs).Keys == Names(recs)
    decreases |recs|
  {
    if recs != [] {
      var n := |recs| - 1;
      TallyKeys(recs[..n]);
      NamesAdd(recs, n);
      assert recs[..n + 1] == recs;
    }
  }

  /** A counter summed over the records of one command. */
  function SumFor(recs: seq<Pcms>, name: Name, c: Counter, prime: bool): real {
    if recs == [] then 0.0
    else
      var last := recs[|recs| - 1];
      SumFor(recs[..|recs| - 1], name, c, prime) + (if Clean(last.name) == name then Get(last.use, c, prime) else 0.0)
  }

  /** How often a command was run. */
  function RunsOf(recs: seq<Pcms>, name: Name): real {
    SumFor(recs, name, Pc, true) + SumFor(recs, name, Pc, false)
  }

  /** The map holds, for each command, the sums over its records. */
  lemma {:induction false} TallyIs(recs: seq<Pcms>, name: Name, c: Counter, prime: bool)
    ensures var m := Tally(map[], recs);
      SumFor(recs, name, c, prime) == if name in m then Get(m[name], c, prime) else 0.0
    decreases |recs|
  {
    if recs != [] {
      var n := |recs| - 1;
      TallyIs(recs[..n], name, c, prime);
      ChargeIs(Tally(map[], recs[..n]), Clean(recs[n].name), recs[n].use, name, c, prime);
    }
  }

  lemma {:induction false} ChargeIs(m: map<Name, Use>, to: Name, use: Use, name: Name, c: Counter, prime: bool)
    ensures var r := Charge(m, to, use);
      (if name in r then Get(r[name], c, prime) else 0.0) ==
      (if name in m then Get(m[name], c, prime) else 0.0) + (if to == name then Get(use, c, prime) else 0.0)
  {
    GetAdd(if name in m then m[name] else Zero, use, c, prime);
  }

  lemma {:induction false} TallyRuns(recs: seq<Pcms>, name: Name)
    requires name in Tally(map[], recs)
    ensures RunsOf(recs, name) == Processes(Tally(map[], recs)[name]) as real
  {
    TallyIs(recs, name, Pc, true);
    TallyIs(recs, name, Pc, false);
  }

  /** A command other than ***other is in a summary exactly if it was run twice, and with its sums. */
  lemma {:induction false} SummaryMeans(out: seq<Pcms>, recs: seq<Pcms>, name: Name)
    requires IsSummary(out, recs) && name != OTHER
    ensures (exists k :: 0 <= k < |out| && out[k].name == name) <==>
            name != [] && name in Names(recs) && RunsOf(recs, name) > 1.0
    ensures forall k :: 0 <= k < |out| && out[k].name == name ==>
              forall c, prime :: Get(out[k].use, c, prime) == SumFor(recs, name, c, prime)
  {
    var m := Tally(map[], recs);
    TallyKeys(recs);
    if name in m { TallyRuns(recs, name); }
    forall k | 0 <= k < |out| && out[k].name == name
      ensures name != [] && name in m && Processes(m[name]) > 1 && out[k].use == m[name]
    {
      assert out[k] in out;
      assert IsFrequent(out[k], m);
    }
    forall k, c, prime | 0 <= k < |out| && out[k].name == name
      ensures Get(out[k].use, c, prime) == SumFor(recs, name, c, prime)
    {
      TallyIs(recs, name, c, prime);
    }
    if name != [] && name in m && Processes(m[name]) > 1 {
      assert IsFrequent(Pcms(name, m[name]), m);
      var k :| 0 <= k < |out| && out[k] == Pcms(name, m[name]);
      assert out[k].name == name;
    }
  }

  lemma {:induction false} NamesAdd(recs: seq<Pcms>, n: nat)
    requires n < |recs|
    ensures Names(recs[..n + 1]) == Names(recs[..n]) + {Clean(recs[n].name)}
  {
    forall x | x in Names(recs[..n + 1]) ensures x in Names(recs[..n]) + {Clean(recs[n].name)} {
      var i :| 0 <= i < n + 1 && Clean(recs[..n + 1][i].name) == x;
      if i < n { assert recs[..n][i] == recs[i]; }
    }
    forall x | x in Names(recs[..n]) ensures x in Names(recs[..n + 1]) {
      var i :| 0 <= i < n && Clean(recs[..n][i].name) == x;
      assert recs[..n + 1][i] == recs[i];
    }
    assert recs[..n + 1][n] == recs[n];
  }

  /** Once a name does not fit, there are too many names in all. */
  lemma {:induction false} NamesExceed(recs: seq<Pcms>, n: nat)
    requires n < |recs| && |Tally(map[], recs[..n]).Keys + {Clean(recs[n].name)}| > CSIZE
    ensures |Names(recs)| > CSIZE
  {
    TallyKeys(recs[..n]);
    NamesAdd(recs, n);
    forall x | x in Names(recs[..n + 1]) ensures x in Names(recs) {
      var i :| 0 <= i < n + 1 && Clean(recs[..n + 1][i].name) == x;
      assert recs[i] == recs[..n + 1][i];
    }
    Subset(Names(recs[..n + 1]), Names(recs));
  }

  /**
   * A record without a name is added to a free cell, which stays free: its counters are in no
   * total, until the next new name whose search ends there is charged with them.
   */
  lemma {:induction false} NamelessLeaks(list: seq<Pcms>, m: map<Name, Use>, p: nat, use: Use, name: Name, more: Use)
    requires Tabled(list, m) && p < |list| && StopsAt(Slots(Cells(list)), Home([]), [], p)
    requires name != [] && name !in m && StopsAt(Slots(Cells(list)), Home(name), name, p)
    ensures var once := Entered(list, p, [], use);
      && (forall c, prime :: Grand(once, c, prime) == Grand(list, c, prime))
      && Entered(once, p, name, more)[p] == Pcms(name, Add(Add(Zero, use), more))
      && (forall c, prime ::
            Grand(Entered(once, p, name, more), c, prime) ==
                Grand(list, c, prime) + Get(use, c, prime) + Get(more, c, prime))
  {
    SearchAgrees(Cells(list), Home, Zero, m, name, p);
    assert Cells(list)[p] == CellOf(list[p]);
    assert list[p] == Pcms([], Zero);
    var once := Entered(list, p, [], use);
    forall c, prime
      ensures Grand(once, c, prime) == Grand(list, c, prime)
      ensures Grand(Entered(once, p, name, more), c, prime) ==
          Grand(list, c, prime) + Get(use, c, prime) + Get(more, c, prime)
    {
      GrandSet(list, p, once[p], c, prime);
      GetAdd(Zero, use, c, prime);
      GetAdd(Add(Zero, use), more, c, prime);
      GrandSet(once, p, Entered(once, p, name, more)[p], c, prime);
    }
  }

  lemma {:induction false} SummaryOf(list: seq<Pcms>, m: map<Name, Use>, j: nat, recs: seq<Pcms>)
    requires j < |list| && Tabled(list, m) && m == Tally(map[], recs)
    requires forall c, prime :: Grand(list, c, prime) == SumUse(recs, c, prime)
    requires var l := Entered(list, j, OTHER, Zero); l[j].name == OTHER && Tabled(l, Charge(m, OTHER, Zero))
    ensures IsSummary(Summary(Entered(list, j, OTHER, Zero), j), recs)
  {
    var l := Entered(list, j, OTHER, Zero);
    SummaryDistinct(l, Charge(m, OTHER, Zero), j);
    forall c, prime ensures Grand(Summary(l, j), c, prime) == SumUse(recs, c, prime) {
      SummaryTotal(list, m, j, c, prime);
    }
    forall e: Pcms | e.name != OTHER ensures e in Summary(l, j) <==> IsFrequent(e, m) {
      SummaryFrequent(l, m, j, e);
    }
  }

  lemma {:induction false} SummaryTotal(list: seq<Pcms>, m: map<Name, Use>, j: nat, c: Counter, prime: bool)
    requires j < |list| && Tabled(list, m) && Entered(list, j, OTHER, Zero)[j].name == OTHER
    ensures Grand(Summary(Entered(list, j, OTHER, Zero), j), c, prime) == Grand(list, c, prime)
  {
    GrandEntered(list, m, j, OTHER, Zero, c, prime);
    SummaryGrand(Entered(list, j, OTHER, Zero), j, c, prime);
  }

  lemma {:induction false} SummaryFrequent(l: seq<Pcms>, m: map<Name, Use>, j: nat, e: Pcms)
    requires j < |l| && l[j].name == OTHER && Tabled(l, Charge(m, OTHER, Zero)) && e.name != OTHER
    ensures e in Summary(l, j) <==> IsFrequent(e, m)
  {
    SummaryHas(l, Charge(m, OTHER, Zero), j, e);
  }

  lemma {:induction false} GrandClear(list: seq<Pcms>)
    requires forall q :: 0 <= q < |list| ==> list[q].name == []
    ensures forall c, prime :: Grand(list, c, prime) == 0.0
  {
    forall c, prime ensures Grand(list, c, prime) == 0.0 { GrandNone(list, c, prime); }
  }

  lemma {:induction false} GrandNone(list: seq<Pcms>, c: Counter, prime: bool)
    requires forall q :: 0 <= q < |list| ==> list[q].name == []
    ensures Grand(list, c, prime) == 0.0
    decreases |list|
  {
    if list != [] { GrandNone(list[..|list| - 1], c, prime); }
  }

  lemma {:induction false} GrandNext(list: seq<Pcms>, m: map<Name, Use>, p: nat, recs: seq<Pcms>, n: nat)
    requires n < |recs| && p < |list| && Tabled(list, m) && recs[n].name != []
    requires forall c, prime :: Grand(list, c, prime) == SumUse(recs[..n], c, prime)
    ensures forall c, prime ::
              Grand(Entered(list, p, Clean(recs[n].name), recs[n].use), c, prime) == SumUse(recs[..n + 1], c, prime)
  {
    assert recs[..n + 1][..n] == recs[..n];
    forall c, prime
      ensures Grand(Entered(list, p, Clean(recs[n].name), recs[n].use), c, prime) == SumUse(recs[..n + 1], c, prime)
    {
      GrandEntered(list, m, p, Clean(recs[n].name), recs[n].use, c, prime);
    }
  }

  lemma {:induction false} TallyHas(recs: seq<Pcms>, i: nat)
    requires i < |recs|
    ensures Clean(recs[i].name) in Tally(map[], recs)
    decreases |recs|
  {
    if i < |recs| - 1 { TallyHas(recs[..|recs| - 1], i); }
  }

  /** No table holds the empty name. */
  lemma {:induction false} NeverTabled(list: seq<Pcms>, recs: seq<Pcms>)
    requires !AllNamed(recs)
    ensures !Tabled(list, Tally(map[], recs))
  {
    var i :| 0 <= i < |recs| && recs[i].name == [];
    TallyHas(recs, i);
    assert Clean(recs[i].name) == [];
    assert !Holds(Slots(Cells(list)), []);
  }
}
