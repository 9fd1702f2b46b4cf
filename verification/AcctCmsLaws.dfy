/** Totals are kept by entering, folding and compaction; who survives is settled by the map. */
module AcctCmsLaws {
  import opened Probing
  import opened AcctCmsSpec

  function SumUse(recs: seq<Pcms>, c: Counter, prime: bool): real {
    if recs == [] then 0.0 else SumUse(recs[..|recs| - 1], c, prime) + Get(recs[|recs| - 1].use, c, prime)
  }

  lemma {:induction false} GrandSet(list: seq<Pcms>, p: nat, e: Pcms, c: Counter, prime: bool)
    requires p < |list|
    ensures Grand(list[p := e], c, prime) == Grand(list, c, prime) - Share(list[p], c, prime) + Share(e, c, prime)
    decreases |list|
  {
    var n := |list| - 1;
    if p < n {
      assert list[p := e][..n] == list[..n][p := e];
      GrandSet(list[..n], p, e, c, prime);
    } else {
      assert list[p := e][..n] == list[..n];
    }
  }

  /** Entering a record adds its counters to the grand total. */
  lemma {:induction false} GrandEntered(list: seq<Pcms>, m: map<Name, Use>, p: nat, name: Name, use: Use, c: Counter,
                                        prime: bool)
    requires Tabled(list, m) && name != [] && p < |list|
    ensures Grand(Entered(list, p, name, use), c, prime) == Grand(list, c, prime) + Get(use, c, prime)
  {
    assert Cells(list)[p] == CellOf(list[p]);
    GetAdd(list[p].use, use, c, prime);
    GrandSet(list, p, Entered(list, p, name, use)[p], c, prime);
  }

  /** Folding only clears the names of junk entries and adds to cell j. */
  lemma {:induction false} FoldedShape(list: seq<Pcms>, j: nat, n: nat, i: nat)
    requires j < |list| && n <= |list| && i < |list|
    ensures Folded(list, j, n)[j].name == list[j].name
    ensures i != j ==>
              Folded(list, j, n)[i] == if i < n && IsJunk(list[i]) then list[i].(name := []) else list[i]
    decreases n
  {
    if n > 0 {
      FoldedShape(list, j, n - 1, i);
      FoldedShape(list, j, n - 1, n - 1);
    }
  }

  lemma {:induction false} FoldedGrand(list: seq<Pcms>, j: nat, n: nat, c: Counter, prime: bool)
    requires j < |list| && n <= |list| && list[j].name != []
    ensures Grand(Folded(list, j, n), c, prime) == Grand(list, c, prime)
    decreases n
  {
    if n > 0 {
      FoldedGrand(list, j, n - 1, c, prime);
      var r, i := Folded(list, j, n - 1), n - 1;
      FoldedShape(list, j, n - 1, i);
      if i != j && IsJunk(r[i]) { FoldOne(r, j, i, c, prime); }
    }
  }

  /** Moving one entry's counters to another keeps the grand total. */
  lemma {:induction false} FoldOne(r: seq<Pcms>, j: nat, i: nat, c: Counter, prime: bool)
    requires j < |r| && i < |r| && i != j && r[j].name != [] && r[i].name != []
    ensures Grand(r[j := r[j].(use := Add(r[j].use, r[i].use))][i := r[i].(name := [])], c, prime) == Grand(r, c, prime)
  {
    var e := r[j].(use := Add(r[j].use, r[i].use));
    GetAdd(r[j].use, r[i].use, c, prime);
    GrandSet(r, j, e, c, prime);
    GrandSet(r[j := e], i, r[i].(name := []), c, prime);
  }

  lemma {:induction false} GrandAdd(list: seq<Pcms>, e: Pcms, c: Counter, prime: bool)
    ensures Grand(list + [e], c, prime) == Grand(list, c, prime) + Share(e, c, prime)
  {
    assert (list + [e])[..|list|] == list;
  }

  lemma {:induction false} SqueezedGrand(list: seq<Pcms>, c: Counter, prime: bool)
    ensures Grand(Squeezed(list), c, prime) == Grand(list, c, prime)
    decreases |list|
  {
    if list != [] {
      var n := |list| - 1;
      SqueezedGrand(list[..n], c, prime);
      if list[n].name == [] {
        assert Squeezed(list) == Squeezed(list[..n]);
      } else {
        GrandAdd(Squeezed(list[..n]), list[n], c, prime);
      }
    }
  }

  lemma {:induction false} SqueezedHas(list: seq<Pcms>, e: Pcms)
    ensures e in Squeezed(list) <==> e in list && e.name != []
    decreases |list|
  {
    if list != [] {
      var n := |list| - 1;
      SqueezedHas(list[..n], e);
      assert list == list[..n] + [list[n]];
    }
  }

  /** The final summary of a table, with folding into cell j. */
  function Summary(list: seq<Pcms>, j: nat): seq<Pcms>
    requires j < |list|
  {
    Squeezed(Folded(list, j, |list|))
  }

  /** Folding and compaction keep every grand total. */
  lemma {:induction false} SummaryGrand(list: seq<Pcms>, j: nat, c: Counter, prime: bool)
    requires j < |list| && list[j].name != []
    ensures Grand(Summary(list, j), c, prime) == Grand(list, c, prime)
  {
    FoldedGrand(list, j, |list|, c, prime);
    SqueezedGrand(Folded(list, j, |list|), c, prime);
  }

  /**
   * Apart from the entry folded into, the summary holds exactly the commands of the map
   * that were run at least twice, with their totals.
   */
  lemma {:induction false} SummaryHas(list: seq<Pcms>, m: map<Name, Use>, j: nat, e: Pcms)
    requires Tabled(list, m) && j < |list| && list[j].name != [] && e.name != list[j].name
    ensures e in Summary(list, j) <==> e.name in m && e.name != [] && m[e.name] == e.use && Processes(e.use) > 1
  {
    var r := Folded(list, j, |list|);
    SqueezedHas(r, e);
    if e in r && e.name != [] {
      var i :| 0 <= i < |r| && r[i] == e;
      FoldedShape(list, j, |list|, i);
      assert Cells(list)[i] == CellOf(list[i]);
    }
    if e.name in m && e.name != [] && m[e.name] == e.use && Processes(e.use) > 1 {
      var i :| 0 <= i < |list| && Slots(Cells(list))[i] == Held(e.name);
      assert Cells(list)[i] == CellOf(list[i]);
      FoldedShape(list, j, |list|, i);
      assert r[i] == e;
    }
  }

  /** No two entries in use have the same name. */
  predicate Distinct(list: seq<Pcms>) {
    forall i, j :: 0 <= i < j < |list| && list[i].name != [] ==> list[i].name != list[j].name
  }

  lemma {:induction false} TabledDistinct(list: seq<Pcms>, m: map<Name, Use>)
    requires Tabled(list, m)
    ensures Distinct(list)
  {
    var s := Slots(Cells(list));
    forall i, j | 0 <= i < j < |list| && list[i].name != [] ensures list[i].name != list[j].name {
      assert s[i] == CellOf(list[i]).slot && s[j] == CellOf(list[j]).slot;
      if s[i] == s[j] { Unique(s, Home, i, j); }
    }
  }

  lemma {:induction false} FoldedDistinct(list: seq<Pcms>, j: nat)
    requires j < |list| && Distinct(list)
    ensures Distinct(Folded(list, j, |list|))
  {
    var r := Folded(list, j, |list|);
    forall i | 0 <= i < |list| ensures r[i].name == [] || r[i].name == list[i].name { FoldedShape(list, j, |list|, i); }
  }

  lemma {:induction false} SqueezedDistinct(list: seq<Pcms>)
    requires Distinct(list)
    ensures Distinct(Squeezed(list))
    decreases |list|
  {
    if list != [] {
      var n := |list| - 1;
      SqueezedDistinct(list[..n]);
      var s := Squeezed(list[..n]);
      forall i | 0 <= i < |s| ensures s[i].name != [] && s[i] in list[..n] { SqueezedHas(list[..n], s[i]); }
    }
  }

  lemma {:induction false} SummaryDistinct(list: seq<Pcms>, m: map<Name, Use>, j: nat)
    requires Tabled(list, m) && j < |list|
    ensures Distinct(Summary(list, j))
  {
    TabledDistinct(list, m);
    FoldedDistinct(list, j);
    SqueezedDistinct(Folded(list, j, |list|));
  }
}
