/**
 * Removing clock changes from a login log.  The first pass keeps a list of intervals of
 * records to adjust; the second applies them.
 */
module WtmpFix {
  import opened Utmpx

  // ---- Records ----

  /** invalid: a name with a character outside the portable set. */
  predicate BadName(name: string) {
    exists i :: 0 <= i < |name| && !IsNameChar(name[i])
  }

  /** A record as it is written to the temporary file. */
  function Cleaned(rec: Rec): Rec {
    if BadName(rec.name) then rec.(name := "INVALID") else rec
  }

  predicate StartsWith(s: string, prefix: string) {
    |prefix| <= |s| && s[..|prefix|] == prefix
  }

  /** A record of one of the two run levels. */
  predicate IsLevel(rec: Rec, level: char) {
    rec.kind == RunLvl && |rec.line| >= 11 && rec.line[..10] == "run-level " && rec.line[10] == level
  }

  ghost predicate IsMulti(recs: seq<Rec>, i: int) {
    0 <= i < |recs| && IsLevel(recs[i], '2') && forall j :: i < j < |recs| ==> !IsLevel(recs[j], 'S')
  }

  lemma {:induction false} MultiNext(recs: seq<Rec>, i: int)
    requires 0 <= i < |recs| - 1
    ensures IsMulti(recs, i) <==> IsMulti(recs[..|recs| - 1], i) && !IsLevel(recs[|recs| - 1], 'S')
  {}

  /** Multi-user mode: a record of level 2 with none of level S after it. */
  lemma {:induction false} ModeExactly(recs: seq<Rec>)
    ensures Mode(recs) > 0 <==> exists i :: IsMulti(recs, i)
    decreases |recs|
  {
    if recs != [] {
      var n := |recs| - 1;
      ModeExactly(recs[..n]);
      LevelIs(recs[n].line);
      if IsLevel(recs[n], '2') {
        assert IsMulti(recs, n);
      } else {
        if i :| IsMulti(recs, i) { MultiNext(recs, i); }
        if i :| IsMulti(recs[..n], i) { MultiNext(recs, i); }
      }
    }
  }

  lemma {:induction false} LevelIs(line: string)
    ensures StartsWith(line, "run-level S") <==> |line| >= 11 && line[..10] == "run-level " && line[10] == 'S'
    ensures StartsWith(line, "run-level 2") <==> |line| >= 11 && line[..10] == "run-level " && line[10] == '2'
  {
    if |line| >= 11 {
      assert line[..11] == line[..10] + [line[10]];
      assert "run-level S" == "run-level " + ['S'] && "run-level 2" == "run-level " + ['2'];
    }
  }

  /** The count of entries into multi-user mode since the last single-user mode. */
  function Mode(recs: seq<Rec>): nat {
    if recs == [] then 0 else NextMode(Mode(recs[..|recs| - 1]), recs[|recs| - 1])
  }

  function NextMode(mode: nat, rec: Rec): nat {
    if rec.kind != RunLvl then mode
    else if StartsWith(rec.line, "run-level S") then 0
    else if StartsWith(rec.line, "run-level 2") then mode + 1
    else mode
  }

  // ---- What the correction should be ----

  /** The clock change recorded at j and j + 1, if any. */
  function Change(recs: seq<Rec>, j: nat): int
    requires j < |recs|
  {
    if recs[j].kind == OldTime && j + 1 < |recs| then recs[j + 1].time - recs[j].time else 0
  }

  /** As Change, but only in multi-user mode. */
  function Counted(recs: seq<Rec>, j: nat): int
    requires j < |recs|
  {
    if Mode(recs[..j]) > 0 then Change(recs, j) else 0
  }

  /** One backward scan: the changes from j on, up to the next boot. */
  function Ahead(recs: seq<Rec>, j: nat): int
    decreases |recs| - j
  {
    if j >= |recs| || recs[j].kind == BootTime then 0
    else Counted(recs, j) + Ahead(recs, j + 1)
  }

  /** The correction of record i. */
  function Adj(recs: seq<Rec>, i: nat): int {
    Ahead(recs, i + 1)
  }

  function Fixed(recs: seq<Rec>): (r: seq<Rec>)
    ensures |r| == |recs|
  {
    seq(|recs|, i requires 0 <= i < |recs| => recs[i].(time := recs[i].time + Adj(recs, i)))
  }

  /** Every old time is followed by its new time, in the same file. */
  predicate Paired(recs: seq<Rec>) {
    forall i :: 0 <= i < |recs| && recs[i].kind == OldTime ==>
      i + 1 < |recs| && recs[i + 1].kind == NewTime
  }

  predicate AllValid(recs: seq<Rec>) {
    forall i :: 0 <= i < |recs| ==> recs[i].kind != Invalid
  }

  /** What the first pass writes for a file; the new time of a pair is not examined. */
  function Copied(recs: seq<Rec>): (r: seq<Rec>)
    ensures |r| == |recs|
  {
    seq(|recs|, i requires 0 <= i < |recs| =>
      if i > 0 && recs[i - 1].kind == OldTime then recs[i] else Cleaned(recs[i]))
  }

  function CopiedAll(files: seq<seq<Rec>>): seq<Rec> {
    if files == [] then [] else CopiedAll(files[..|files| - 1]) + Copied(files[|files| - 1])
  }

  // ---- Interval lists ----

  datatype Dtab = Dtab(off1: nat, off2: nat, adj: int)

  /** adjust: what the list adds to the time of record p. */
  function ListAdj(list: seq<Dtab>, p: nat): int {
    if list == [] then 0
    else ListAdj(list[..|list| - 1], p) + EntryAdj(list[|list| - 1], p)
  }

  function EntryAdj(e: Dtab, p: nat): int {
    if e.adj != 0 && e.off1 <= p < e.off2 then e.adj else 0
  }

  /** The position of the last boot before n, or 0. */
  function LastBoot(recs: seq<Rec>): (p: nat)
    ensures recs != [] ==> p < |recs|
  {
    if recs == [] then 0
    else if recs[|recs| - 1].kind == BootTime then |recs| - 1
    else LastBoot(recs[..|recs| - 1])
  }

  /** The list gives every record so far its correction; its last entry is open. */
  ghost predicate Represents(list: seq<Dtab>, recs: seq<Rec>) {
    && (forall p :: 0 <= p < |recs| ==> ListAdj(list, p) == Adj(recs, p))
    && (recs == [] ==> list == [])
    && (recs != [] ==> list != [] && list[|list| - 1] == Dtab(LastBoot(recs), 0, 0))
    && (forall e :: e in list ==> e.off2 <= |recs|)
  }

  predicate NoBoot(recs: seq<Rec>, j: nat, n: nat) {
    forall k :: j <= k < n && k < |recs| ==> recs[k].kind != BootTime
  }

  lemma {:induction false} LastBootIs(recs: seq<Rec>, p: nat)
    requires p < |recs|
    ensures p >= LastBoot(recs) <==> NoBoot(recs, p + 1, |recs|)
    decreases |recs|
  {
    var n := |recs| - 1;
    if recs[n].kind != BootTime && p < n {
      LastBootIs(recs[..n], p);
      assert NoBoot(recs, p + 1, |recs|) <==> NoBoot(recs[..n], p + 1, n);
    }
  }

  // ---- Growing the log ----

  /** No pair is cut off at the end. */
  predicate Whole(recs: seq<Rec>) {
    recs == [] || recs[|recs| - 1].kind != OldTime
  }

  lemma {:induction false} AheadAppend(recs: seq<Rec>, more: seq<Rec>, j: nat)
    requires Whole(recs) && j <= |recs|
    ensures Ahead(recs + more, j) ==
            Ahead(recs, j) + (if NoBoot(recs, j, |recs|) then Ahead(recs + more, |recs|) else 0)
    decreases |recs| - j
  {
    if j < |recs| && recs[j].kind != BootTime {
      assert (recs + more)[..j] == recs[..j];
      AheadAppend(recs, more, j + 1);
      assert NoBoot(recs, j, |recs|) <==> NoBoot(recs, j + 1, |recs|);
    }
  }

  /** A record that is not the first half of a pair corrects nothing before it. */
  lemma {:induction false} AdjAppend(recs: seq<Rec>, rec: Rec, p: nat)
    requires Whole(recs) && rec.kind != OldTime && p <= |recs|
    ensures Adj(recs + [rec], p) == if p < |recs| then Adj(recs, p) else 0
  {
    if p < |recs| { AheadAppend(recs, [rec], p + 1); }
  }

  lemma {:induction false} PairAhead(all: seq<Rec>, n: nat)
    requires |all| == n + 2 && all[n].kind == OldTime && all[n + 1].kind == NewTime
    ensures Ahead(all, n) == (if Mode(all[..n]) > 0 then all[n + 1].time - all[n].time else 0)
    ensures Ahead(all, n + 1) == 0 && Ahead(all, n + 2) == 0
  {
    assert Ahead(all, n + 2) == 0;
    assert Change(all, n + 1) == 0;
    assert Ahead(all, n + 1) == Counted(all, n + 1) + Ahead(all, n + 2);
  }

  /** A pair corrects the records since the last boot, if it counts. */
  lemma {:induction false} AdjAppendPair(recs: seq<Rec>, pair: seq<Rec>, p: nat)
    requires Whole(recs) && IsPair(pair) && p <= |recs| + 1
    ensures Adj(recs + pair, p) ==
            if p >= |recs| then 0
            else Adj(recs, p) + (if Mode(recs) > 0 && LastBoot(recs) <= p then pair[1].time - pair[0].time else 0)
  {
    PairAhead(recs + pair, |recs|);
    assert (recs + pair)[..|recs|] == recs;
    if p < |recs| {
      AheadAppend(recs, pair, p + 1);
      LastBootIs(recs, p);
    }
  }

  predicate IsPair(pair: seq<Rec>) {
    |pair| == 2 && pair[0].kind == OldTime && pair[1].kind == NewTime
  }

  lemma {:induction false} ListAdjAdd(list: seq<Dtab>, e: Dtab, p: nat)
    ensures ListAdj(list + [e], p) == ListAdj(list, p) + EntryAdj(e, p)
  {
    assert (list + [e])[..|list|] == list;
  }

  lemma {:induction false} ListAdjBeyond(list: seq<Dtab>, p: nat)
    requires forall e :: e in list ==> e.off2 <= p
    ensures ListAdj(list, p) == 0
    decreases |list|
  {
    if list != [] { ListAdjBeyond(list[..|list| - 1], p); }
  }

  lemma {:induction false} ModeAppend(recs: seq<Rec>, rec: Rec)
    ensures Mode(recs + [rec]) == NextMode(Mode(recs), rec)
  {
    assert (recs + [rec])[..|recs|] == recs;
  }

  /** The list as mkdtab leaves it for a record at position n. */
  function Opened(list: seq<Dtab>, n: nat, rec: Rec): seq<Dtab> {
    if list == [] then [Dtab(n, 0, 0)]
    else if n == 0 || rec.kind == BootTime then list[|list| - 1 := list[|list| - 1].(off1 := n)]
    else list
  }

  lemma {:induction false} OpenedSame(list: seq<Dtab>, n: nat, rec: Rec, p: nat)
    requires list != [] ==> list[|list| - 1].adj == 0
    ensures ListAdj(Opened(list, n, rec), p) == ListAdj(list, p)
  {
    var r := Opened(list, n, rec);
    if list != [] { assert r[..|list| - 1] == list[..|list| - 1]; }
  }

  lemma {:induction false} RepresentsAppend(list: seq<Dtab>, recs: seq<Rec>, rec: Rec)
    requires Represents(list, recs) && Whole(recs) && rec.kind != OldTime
    ensures Represents(Opened(list, |recs|, rec), recs + [rec])
  {
    var r, n := Opened(list, |recs|, rec), |recs|;
    forall p | 0 <= p <= n ensures ListAdj(r, p) == Adj(recs + [rec], p) {
      OpenedSame(list, n, rec, p);
      AdjAppend(recs, rec, p);
      if p == n { ListAdjBeyond(list, p); }
    }
    assert (recs + [rec])[..n] == recs;
  }

  /** setdtab: close the last entry over the records before n, and open another. */
  function Closed(list: seq<Dtab>, n: nat, adj: int): seq<Dtab>
    requires list != []
  {
    var e := list[|list| - 1];
    list[..|list| - 1] + [Dtab(e.off1, n, adj)] + [Dtab(e.off1, 0, 0)]
  }

  lemma {:induction false} ClosedAdj(list: seq<Dtab>, n: nat, adj: int, p: nat)
    requires list != [] && list[|list| - 1].adj == 0
    ensures var e := list[|list| - 1];
      ListAdj(Closed(list, n, adj), p) == ListAdj(list, p) + EntryAdj(Dtab(e.off1, n, adj), p)
  {
    var e, init := list[|list| - 1], list[..|list| - 1];
    ListAdjAdd(init, Dtab(e.off1, n, adj), p);
    ListAdjAdd(init + [Dtab(e.off1, n, adj)], Dtab(e.off1, 0, 0), p);
  }

  /** The list after a pair. */
  function AfterPair(list: seq<Dtab>, recs: seq<Rec>, pair: seq<Rec>): seq<Dtab>
    requires IsPair(pair)
  {
    var l := Opened(list, |recs|, pair[0]);
    if Mode(recs) > 0 then Closed(l, |recs|, pair[1].time - pair[0].time) else l
  }

  lemma {:induction false} PairAdj(list: seq<Dtab>, recs: seq<Rec>, pair: seq<Rec>, p: nat)
    requires Represents(list, recs) && Whole(recs) && IsPair(pair) && p <= |recs| + 1
    ensures ListAdj(AfterPair(list, recs, pair), p) == Adj(recs + pair, p)
  {
    var l := Opened(list, |recs|, pair[0]);
    OpenedSame(list, |recs|, pair[0], p);
    AdjAppendPair(recs, pair, p);
    if p >= |recs| { ListAdjBeyond(list, p); }
    if Mode(recs) > 0 { ClosedAdj(l, |recs|, pair[1].time - pair[0].time, p); }
  }

  lemma {:induction false} LastBootPair(recs: seq<Rec>, pair: seq<Rec>)
    requires IsPair(pair)
    ensures LastBoot(recs + pair) == LastBoot(recs)
  {
    var all, n := recs + pair, |recs|;
    assert all[..n + 1][..n] == recs;
    assert LastBoot(all) == LastBoot(all[..n + 1]);
  }

  lemma {:induction false} RepresentsPair(list: seq<Dtab>, recs: seq<Rec>, pair: seq<Rec>)
    requires Represents(list, recs) && Whole(recs) && IsPair(pair)
    ensures Represents(AfterPair(list, recs, pair), recs + pair)
  {
    LastBootPair(recs, pair);
    forall p | 0 <= p < |recs + pair|
      ensures ListAdj(AfterPair(list, recs, pair), p) == Adj(recs + pair, p)
    {
      PairAdj(list, recs, pair, p);
    }
  }

  // ---- One clock per boot ----

  /** How far the clock had been moved when record i was written. */
  function Clock(recs: seq<Rec>, i: nat): int
    requires i <= |recs|
  {
    if i == 0 then 0 else Clock(recs, i - 1) + Change(recs, i - 1)
  }

  /** The changes at i up to j that are passed over, because they were made in single-user mode. */
  function Skipped(recs: seq<Rec>, i: nat, j: nat): int
    requires i <= j <= |recs|
    decreases j - i
  {
    if i == j then 0 else Change(recs, i) - Counted(recs, i) + Skipped(recs, i + 1, j)
  }

  lemma {:induction false} SameEpoch(recs: seq<Rec>, i: nat, j: nat)
    requires i <= j < |recs| && NoBoot(recs, i + 1, j + 1)
    ensures Adj(recs, i) + Clock(recs, i) + Change(recs, i) + Skipped(recs, i + 1, j + 1)
         == Adj(recs, j) + Clock(recs, j) + Change(recs, j)
    decreases j - i
  {
    if i < j { SameEpoch(recs, i + 1, j); }
  }

  /**
   * Two corrected records of one boot, neither the first half of a pair, are as far apart as
   * on a clock that was never moved, exactly when the changes passed over between them sum to 0.
   */
  lemma {:induction false} EpochOnOneClock(recs: seq<Rec>, i: nat, j: nat)
    requires i <= j < |recs| && NoBoot(recs, i + 1, j + 1)
    requires recs[i].kind != OldTime && recs[j].kind != OldTime
    ensures Fixed(recs)[j].time - Fixed(recs)[i].time ==
            (recs[j].time - Clock(recs, j)) - (recs[i].time - Clock(recs, i))
            <==> Skipped(recs, i + 1, j + 1) == 0
  {
    SameEpoch(recs, i, j);
  }

  lemma {:induction false} AllMultiUser(recs: seq<Rec>, i: nat, j: nat)
    requires i <= j <= |recs|
    requires forall k :: i <= k < j && recs[k].kind == OldTime ==> Mode(recs[..k]) > 0
    ensures Skipped(recs, i, j) == 0
    decreases j - i
  {
    if i < j { AllMultiUser(recs, i + 1, j); }
  }

  // ---- The program ----

  /** The pairs that begin before i are complete, and end before i. */
  predicate PairedTo(file: seq<Rec>, i: nat)
    requires i <= |file|
  {
    && (i > 0 ==> file[i - 1].kind != OldTime)
    && forall j :: 0 <= j < i && file[j].kind == OldTime ==> file[j + 1].kind == NewTime
  }

  lemma {:induction false} SliceJoin(a: seq<Rec>, s: seq<Rec>, i: nat, n: nat)
    requires i <= n <= |s|
    ensures a + s[..i] + s[i..n] == a + s[..n]
  {}

  lemma {:induction false} SliceAll(s: seq<Rec>)
    ensures s[..|s|] == s
  {}

  lemma {:induction false} CopiedNext(file: seq<Rec>, i: nat)
    requires i < |file| && (i > 0 ==> file[i - 1].kind != OldTime)
    ensures Copied(file)[i..i + 1] == [Cleaned(file[i])]
  {}

  lemma {:induction false} CopiedPair(file: seq<Rec>, i: nat)
    requires i + 1 < |file| && file[i].kind == OldTime && (i > 0 ==> file[i - 1].kind != OldTime)
    ensures Copied(file)[i..i + 2] == [Cleaned(file[i]), file[i + 1]]
  {}

  lemma {:induction false} CopiedAllNext(files: seq<seq<Rec>>, f: nat)
    requires f < |files|
    ensures CopiedAll(files[..f + 1]) == CopiedAll(files[..f]) + Copied(files[f])
  {
    assert files[..f + 1][..f] == files[..f];
  }

  lemma {:induction false} PairedNext(file: seq<Rec>, i: nat, next: nat)
    requires i < |file| && PairedTo(file, i)
    requires if file[i].kind == OldTime then next == i + 2 <= |file| && file[i + 1].kind == NewTime else next == i + 1
    ensures PairedTo(file, next)
  {}

  class Fixer {
    var list: seq<Dtab>
    var recno: nat
    var multimode: nat
    var temp: seq<Rec>

    constructor ()
      ensures Good() && temp == []
    {
      list, recno, multimode, temp := [], 0, 0, [];
    }

    ghost predicate Good()
      reads this
    {
      Represents(list, temp) && Whole(temp) && recno == |temp| && multimode == Mode(temp)
    }

    method MkDtab(p: nat)
      modifies this`list
      ensures list == if old(list) == [] then [Dtab(p, 0, 0)]
                      else old(list)[|old(list)| - 1 := old(list)[|old(list)| - 1].(off1 := p)]
    {
      if list == [] { list := [Dtab(0, 0, 0)]; }
      list := list[|list| - 1 := list[|list| - 1].(off1 := p)];
    }

    method SetDtab(p: nat, w1: Rec, w2: Rec)
      requires list != []
      modifies this`list
      ensures list == Closed(old(list), p, w2.time - w1.time)
    {
      var last := |list| - 1;
      list := list[last := list[last].(off2 := p, adj := w2.time - w1.time)];
      list := list + [Dtab(list[last].off1, 0, 0)];
    }

    /** adjust */
    method Adjust(p: nat, w: Rec) returns (r: Rec)
      ensures r == w.(time := w.time + ListAdj(list, p))
    {
      r := w;
      for i := 0 to |list|
        invariant r == w.(time := w.time + ListAdj(list[..i], p))
      {
        ListAdjAdd(list[..i], list[i], p);
        assert list[..i] + [list[i]] == list[..i + 1];
        if list[i].adj == 0 { continue; }
        if p >= list[i].off1 && p < list[i].off2 { r := r.(time := r.time + list[i].adj); }
      }
      assert list[..|list|] == list;
    }

    /** invalid */
    method IsInvalid(name: string) returns (bad: bool)
      ensures bad == BadName(name)
    {
      for i := 0 to |name|
        invariant forall j :: 0 <= j < i ==> IsNameChar(name[j])
      {
        if !IsNameChar(name[i]) { return true; }
      }
      bad := false;
    }

    /** One record that is not the first half of a pair. */
    method Put(rec: Rec)
      requires Good() && rec.kind != OldTime
      modifies this
      ensures Good() && temp == old(temp) + [Cleaned(rec)]
    {
      RepresentsAppend(list, temp, Cleaned(rec));
      ModeAppend(temp, Cleaned(rec));
      if recno == 0 || rec.kind == BootTime { MkDtab(recno); }
      if rec.kind == RunLvl {
        if StartsWith(rec.line, "run-level S") { multimode := 0; }
        if StartsWith(rec.line, "run-level 2") { multimode := multimode + 1; }
      }
      var bad := IsInvalid(rec.name);
      temp := temp + [if bad then rec.(name := "INVALID") else rec];
      recno := recno + 1;
    }

    /** A clock change. */
    method PutPair(rec: Rec, rec2: Rec)
      requires Good() && rec.kind == OldTime && rec2.kind == NewTime
      modifies this
      ensures Good() && temp == old(temp) + [Cleaned(rec), rec2]
    {
      ghost var pair := [Cleaned(rec), rec2];
      RepresentsPair(list, temp, pair);
      ModeAppend(temp, Cleaned(rec));
      ModeAppend(temp + [Cleaned(rec)], rec2);
      assert temp + pair == temp + [Cleaned(rec)] + [rec2];
      if recno == 0 { MkDtab(recno); }
      var bad := IsInvalid(rec.name);
      var rec1 := if bad then rec.(name := "INVALID") else rec;
      if multimode != 0 { SetDtab(recno, rec1, rec2); }
      recno := recno + 2;
      temp := temp + [rec1, rec2];
    }

    /** scanfile: stops, leaving no output, at an old time without its new time. */
    method ScanFile(file: seq<Rec>) returns (ok: bool)
      requires Good()
      modifies this
      ensures ok == Paired(file)
      ensures ok ==> Good() && temp == old(temp) + Copied(file)
    {
      var i := 0;
      while i < |file|
        invariant 0 <= i <= |file| && Good() && PairedTo(file, i)
        invariant temp == old(temp) + Copied(file)[..i]
      {
        if file[i].kind == OldTime && (i + 1 >= |file| || file[i + 1].kind != NewTime) { return false; }
        var next := PutNext(file, i);
        SliceJoin(old(temp), Copied(file), i, next);
        i := next;
      }
      SliceAll(Copied(file));
      ok := true;
    }

    /** The record at i, with the next one if they are a pair. */
    method PutNext(file: seq<Rec>, i: nat) returns (next: nat)
      requires Good() && i < |file| && PairedTo(file, i)
      requires file[i].kind == OldTime ==> i + 1 < |file| && file[i + 1].kind == NewTime
      modifies this
      ensures Good() && i < next <= |file| && PairedTo(file, next)
      ensures temp == old(temp) + Copied(file)[i..next]
    {
      if file[i].kind == OldTime {
        PutPair(file[i], file[i + 1]);
        CopiedPair(file, i);
        PairedNext(file, i, i + 2);
        next := i + 2;
      } else {
        Put(file[i]);
        CopiedNext(file, i);
        PairedNext(file, i, i + 1);
        next := i + 1;
      }
    }

    /** The files one after the other. */
    method FirstPass(files: seq<seq<Rec>>) returns (ok: bool)
      requires Good() && temp == []
      modifies this
      ensures ok == (forall f :: 0 <= f < |files| ==> Paired(files[f]))
      ensures ok ==> Good() && temp == CopiedAll(files)
    {
      for f := 0 to |files|
        invariant Good() && temp == CopiedAll(files[..f])
        invariant forall g :: 0 <= g < f ==> Paired(files[g])
      {
        CopiedAllNext(files, f);
        ok := ScanFile(files[f]);
        if !ok { return; }
      }
      assert files[..|files|] == files;
      ok := true;
    }

    /** Both passes: the interval list gives what one backward scan would. */
    method Fix(files: seq<seq<Rec>>) returns (ok: bool, out: seq<Rec>)
      requires Good() && temp == []
      modifies this
      ensures ok == ((forall f :: 0 <= f < |files| ==> Paired(files[f])) && AllValid(CopiedAll(files)))
      ensures ok ==> out == Fixed(CopiedAll(files))
    {
      out := [];
      ok := FirstPass(files);
      if ok { ok, out := SecondPass(); }
    }

    /** The second pass stops at a record of no valid kind. */
    method SecondPass() returns (ok: bool, out: seq<Rec>)
      requires Good()
      ensures ok == AllValid(temp)
      ensures ok ==> out == Fixed(temp)
    {
      out := [];
      for i := 0 to |temp|
        invariant AllValid(temp[..i]) && out == Fixed(temp)[..i]
      {
        if temp[i].kind == Invalid { return false, out; }
        var w := Adjust(i, temp[i]);
        out := out + [w];
        assert temp[..i + 1] == temp[..i] + [temp[i]];
      }
      assert temp[..|temp|] == temp;
      ok := true;
    }
  }
}
