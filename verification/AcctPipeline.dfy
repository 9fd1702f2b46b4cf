/**
 * The nightly run gives acctcon a log corrected by wtmpfix.  The corrected log still holds
 * the records of the clock change, so the change is applied twice.
 */
module AcctPipeline {
  import opened Utmpx
  import opened AcctConSpec
  import opened AcctConLaws
  import opened AcctSkew
  import opened AcctCon
  import opened AcctNight
  import Fix = WtmpFix

  // ---- What wtmpfix does to a log with one change ----

  lemma {:induction false} AheadNone(recs: seq<Rec>, j: nat)
    requires forall i :: j <= i < |recs| ==> recs[i].kind != OldTime
    ensures Fix.Ahead(recs, j) == 0
    decreases |recs| - j
  {
    if j < |recs| { AheadNone(recs, j + 1); }
  }

  /** Up to the change at n there is a boot, or the change is reached. */
  lemma {:induction false} AheadChange(recs: seq<Rec>, j: nat, n: nat)
    requires j <= n && n + 1 < |recs| && recs[n].kind == OldTime
    requires forall i :: j <= i < n ==> recs[i].kind != OldTime
    requires forall i :: n < i < |recs| ==> recs[i].kind != OldTime
    ensures Fix.Ahead(recs, j) ==
            if Fix.Mode(recs[..n]) > 0 && Fix.NoBoot(recs, j, n) then recs[n + 1].time - recs[n].time else 0
    decreases n - j
  {
    if j < n {
      if recs[j].kind != BootTime {
        AheadChange(recs, j + 1, n);
        assert Fix.NoBoot(recs, j, n) <==> Fix.NoBoot(recs, j + 1, n);
      }
    } else {
      AheadNone(recs, n + 1);
    }
  }

  /** The records before a change, moved by d from the last boot on. */
  function Moved(before: seq<Rec>, d: int): (r: seq<Rec>)
    ensures |r| == |before|
  {
    var b := Fix.LastBoot(before);
    if before == [] then [] else before[..b] + ShiftRecs(before[b..], d)
  }

  lemma {:induction false} MovedAt(before: seq<Rec>, d: int, i: nat)
    requires i < |before|
    ensures Moved(before, d)[i] == if i < Fix.LastBoot(before) then before[i] else ShiftRec(before[i], d)
  {}

  lemma {:induction false} OneChangeAdj(before: seq<Rec>, t: int, d: int, after: seq<Rec>, i: nat)
    requires NoChange(before) && NoChange(after)
    requires i < |before| + 2 + |after|
    ensures Fix.Adj(before + ClockPair(t, d) + after, i) ==
            if Fix.Mode(before) > 0 && Fix.LastBoot(before) <= i < |before| then d else 0
  {
    var log, n := before + ClockPair(t, d) + after, |before|;
    assert log[..n] == before;
    forall k | n < k < |log| ensures log[k].kind != OldTime {
      if k > n + 1 { assert log[k] == after[k - n - 2]; }
    }
    if i < n {
      forall k | 0 <= k < n ensures log[k] == before[k] {}
      AheadChange(log, i + 1, n);
      Fix.LastBootIs(before, i);
      assert Fix.NoBoot(log, i + 1, n) <==> Fix.NoBoot(before, i + 1, n);
    } else {
      AheadNone(log, i + 1);
    }
  }

  /** In multi-user mode the records since the last boot are moved; the change itself stays. */
  lemma {:induction false} OneChangeFixed(before: seq<Rec>, t: int, d: int, after: seq<Rec>)
    requires NoChange(before) && NoChange(after)
    ensures Fix.Fixed(before + ClockPair(t, d) + after) ==
            (if Fix.Mode(before) > 0 then Moved(before, d) else before) + ClockPair(t, d) + after
  {
    var log := before + ClockPair(t, d) + after;
    var head := if Fix.Mode(before) > 0 then Moved(before, d) else before;
    forall i | 0 <= i < |log| ensures Fix.Fixed(log)[i] == (head + ClockPair(t, d) + after)[i] {
      OneChangeAdj(before, t, d, after, i);
      if i < |before| { MovedAt(before, d, i); }
    }
  }

  // ---- The two runs up to the change ----

  function AllStale(n: nat): (r: seq<bool>)
    ensures |r| == n && forall i :: 0 <= i < n ==> r[i]
  {
    seq(n, _ => true)
  }

  function Flip(stale: seq<bool>): (r: seq<bool>)
    ensures |r| == |stale| && forall i :: 0 <= i < |r| ==> r[i] == !stale[i]
  {
    seq(|stale|, i requires 0 <= i < |stale| => !stale[i])
  }

  /** The lines known at the last boot before the change, and the records from there to the change. */
  function AtBoot(env: Env, before: seq<Rec>): State {
    Run(env, Init, Until(before))
  }

  function Until(before: seq<Rec>): seq<Rec> {
    if before == [] then [] else before[..Fix.LastBoot(before)]
  }

  function Since(before: seq<Rec>): seq<Rec> {
    if before == [] then [] else before[Fix.LastBoot(before)..]
  }

  /** Which lines were not touched since the last boot. */
  function LeftStale(env: Env, before: seq<Rec>): seq<bool> {
    StaleAfter(env, AtBoot(env, before), AllStale(|AtBoot(env, before).lines|), Since(before))
  }

  lemma {:induction false} AgreeSelf(st: State)
    ensures Agree(st, st)
  {}

  lemma {:induction false} Parts(before: seq<Rec>, d: int)
    ensures before == Until(before) + Since(before)
    ensures Moved(before, d) == Until(before) + ShiftRecs(Since(before), d)
  {
    if before != [] { assert before == before[..Fix.LastBoot(before)] + before[Fix.LastBoot(before)..]; }
  }

  lemma {:induction false} NoChangeParts(before: seq<Rec>)
    requires NoChange(before)
    ensures NoChange(Until(before)) && NoChange(Since(before))
  {}

  /** Every line of the log is known once, and no change is pending. */
  lemma {:induction false} RunSound(env: Env, recs: seq<Rec>)
    requires NoChange(recs)
    ensures DistinctLines(Run(env, Init, recs).lines) && Run(env, Init, recs).datetime == 0
  {
    StaleExactly(env, Init, [], recs);
  }

  /** The boot is fair to the sessions open at it. */
  ghost predicate BootIsFair(env: Env, before: seq<Rec>, d: int) {
    forall l :: l in AtBoot(env, before).lines ==> FirstFair(l, Since(before), -d)
  }

  lemma {:induction false} UpToChange(env: Env, before: seq<Rec>, d: int)
    requires Splits(env) && NoChange(before) && NotNegative(Since(before), d)
    ensures Compared(Run(env, Init, before), Run(env, Init, Moved(before, d)), d, -d, LeftStale(env, before),
                     BootIsFair(env, before, d))
  {
    var s, mid := AtBoot(env, before), Since(before);
    var stale := AllStale(|s.lines|);
    Parts(before, d);
    NoChangeParts(before);
    RunSound(env, Until(before));
    RunConcat(env, Init, Until(before), mid);
    RunConcat(env, Init, Until(before), ShiftRecs(mid, d));
    AgreeSelf(s);
    assert Compared(s, s, d, -d, stale, true);
    RunCompared(env, s, s, d, -d, stale, true, mid);
    FairExactly(env, s, stale, mid, -d);
    FairIsIn(s.lines, stale, mid, -d);
  }

  /** By index or by membership. */
  lemma {:induction false} FairIsIn(lines: seq<Line>, stale: seq<bool>, recs: seq<Rec>, gap: int)
    requires |stale| == |lines| && forall i :: 0 <= i < |stale| ==> stale[i]
    ensures (forall i :: 0 <= i < |stale| && stale[i] ==> FirstFair(lines[i], recs, gap)) <==>
            (forall l :: l in lines ==> FirstFair(l, recs, gap))
  {}

  /** The lines touched since the last boot are those that are not left stale. */
  lemma {:induction false} LeftExactly(env: Env, before: seq<Rec>)
    requires NoChange(before)
    ensures var st, left := Run(env, Init, before), LeftStale(env, before);
      && |left| == |st.lines|
      && forall i :: 0 <= i < |left| ==> (left[i] <==> !IsTouched(Since(before), st.lines[i].line))
  {
    var s := AtBoot(env, before);
    NoChangeParts(before);
    RunSound(env, Until(before));
    Parts(before, 0);
    RunConcat(env, Init, Until(before), Since(before));
    StaleExactly(env, s, AllStale(|s.lines|), Since(before));
  }

  // ---- The change ----

  lemma {:induction false} PairIs(env: Env, st: State, t: int, d: int)
    requires st.datetime == 0 && t != 0
    ensures Run(env, st, ClockPair(t, d)) == st.(lines := ShiftLines(st.lines, d), ndates := st.ndates + 1)
  {
    var recs := ClockPair(t, d);
    var mid := Step(env, st, recs[0]);
    assert recs[1..] == [recs[1]];
    assert Run(env, mid, recs[1..]) == Step(env, mid, recs[1]);
  }

  /** Both runs apply the change, and the lines that were level come apart by it. */
  lemma {:induction false} PairCompared(env: Env, a: State, b: State, t: int, d: int, stale: seq<bool>, fair: bool)
    requires Compared(a, b, d, -d, stale, fair) && t != 0
    ensures var a1, b1 := Run(env, a, ClockPair(t, d)), Run(env, b, ClockPair(t, d));
      && (Agree(a1, b1) <==> fair)
      && (fair ==> Compared(a1, b1, 0, d, Flip(stale), true))
      && Compared(a1, b, 0, -d, stale, fair)
  {
    PairIs(env, a, t, d);
    PairIs(env, b, t, d);
    ComparedSays(a, b, d, -d, stale, fair);
    ShiftAgrees(a, b, d);
    if !fair { ShiftSpoiled(a, b, d, stale); }
  }

  lemma {:induction false} ShiftSpoiled(a: State, b: State, d: int, stale: seq<bool>)
    requires Spoiled(a, b, -d, stale)
    ensures Spoiled(a.(lines := ShiftLines(a.lines, d), ndates := a.ndates + 1), b, -d, stale)
  {
    if a.bad == b.bad {
      var i :| 0 <= i < |stale| && IsSpoiled(a, b, -d, stale, i);
      assert IsSpoiled(a.(lines := ShiftLines(a.lines, d), ndates := a.ndates + 1), b, -d, stale, i);
    }
  }

  lemma {:induction false} ShiftAgrees(a: State, b: State, d: int)
    ensures SameLines(ShiftLines(a.lines, d), ShiftLines(b.lines, d)) <==> SameLines(a.lines, b.lines)
    ensures SameLines(ShiftLines(a.lines, d), b.lines) <==> SameLines(a.lines, b.lines)
  {
    if |a.lines| == |b.lines| {
      forall i | 0 <= i < |a.lines|
        ensures SameLine(ShiftLines(a.lines, d)[i], ShiftLines(b.lines, d)[i]) <==> SameLine(a.lines[i], b.lines[i])
        ensures SameLine(ShiftLines(a.lines, d)[i], b.lines[i]) <==> SameLine(a.lines[i], b.lines[i])
      {}
    }
  }

  // ---- The whole log ----

  /** The state when the clock has been set, in the log as written and as corrected. */
  function PlainAt(env: Env, before: seq<Rec>, t: int, d: int): State {
    Run(env, Init, before + ClockPair(t, d))
  }

  function PipedAt(env: Env, before: seq<Rec>, t: int, d: int): State {
    Run(env, Init, Moved(before, d) + ClockPair(t, d))
  }

  lemma {:induction false} AtChange(env: Env, before: seq<Rec>, t: int, d: int)
    requires Splits(env) && NoChange(before) && NotNegative(Since(before), d) && t != 0
    ensures var a, b, left := PlainAt(env, before, t, d), PipedAt(env, before, t, d), LeftStale(env, before);
      && (Agree(a, b) <==> BootIsFair(env, before, d))
      && DistinctLines(a.lines) && a.datetime == 0 && |left| == |a.lines|
      && (forall i :: 0 <= i < |left| ==> (left[i] <==> !IsTouched(Since(before), a.lines[i].line)))
      && (Agree(a, b) ==> Compared(a, b, 0, d, Flip(left), true))
      && Compared(a, Run(env, Init, Moved(before, d)), 0, -d, left, BootIsFair(env, before, d))
  {
    var s, moved := Run(env, Init, before), Run(env, Init, Moved(before, d));
    UpToChange(env, before, d);
    LeftExactly(env, before);
    RunSound(env, before);
    RunConcat(env, Init, before, ClockPair(t, d));
    RunConcat(env, Init, Moved(before, d), ClockPair(t, d));
    PairIs(env, s, t, d);
    PairCompared(env, s, moved, t, d, LeftStale(env, before), BootIsFair(env, before, d));
  }

  /** After the change: the accounts agree in the end exactly if they did, and no stale line is met unfairly. */
  lemma {:induction false} AfterChange(env: Env, a: State, b: State, gap: int, stale: seq<bool>, fair: bool,
                                       after: seq<Rec>)
    requires Splits(env) && Compared(a, b, 0, gap, stale, fair) && NoChange(after) && DistinctLines(a.lines)
    ensures Agree(Run(env, a, after), Run(env, b, after)) <==>
            fair && forall i :: 0 <= i < |stale| && stale[i] ==> FirstFair(a.lines[i], after, gap)
  {
    assert ShiftRecs(after, 0) == after;
    RunCompared(env, a, b, 0, gap, stale, fair, after);
    FairExactly(env, a, stale, after, gap);
    ComparedSays(Run(env, a, after), Run(env, b, after), 0, gap, StaleAfter(env, a, stale, after),
                 fair && AllFair(env, a, stale, after, gap));
  }

  /** Lines touched since the last boot, by index or by membership. */
  lemma {:induction false} TouchedIsIn(lines: seq<Line>, stale: seq<bool>, mid: seq<Rec>, touched: bool,
                                       recs: seq<Rec>, gap: int)
    requires |stale| == |lines|
    requires forall i :: 0 <= i < |stale| ==> (stale[i] <==> IsTouched(mid, lines[i].line) == touched)
    ensures (forall i :: 0 <= i < |stale| && stale[i] ==> FirstFair(lines[i], recs, gap)) <==>
            (forall l :: l in lines && IsTouched(mid, l.line) == touched ==> FirstFair(l, recs, gap))
  {}

  /** The run on the corrected times, at the change and in the end. */
  lemma {:induction false} MovedTwice(env: Env, before: seq<Rec>, t: int, d: int, after: seq<Rec>)
    requires Splits(env) && NoChange(before) && NoChange(after) && t != 0 && NotNegative(Since(before), d)
    ensures var plain0, piped0 := PlainAt(env, before, t, d), PipedAt(env, before, t, d);
      && (Agree(plain0, piped0) <==> BootIsFair(env, before, d))
      && (Agree(plain0, piped0) ==>
            (Agree(Run(env, plain0, after), Run(env, piped0, after)) <==>
             forall l :: l in plain0.lines && IsTouched(Since(before), l.line) ==> FirstFair(l, after, d)))
  {
    var a, b, left := PlainAt(env, before, t, d), PipedAt(env, before, t, d), LeftStale(env, before);
    AtChange(env, before, t, d);
    if Agree(a, b) {
      AfterChange(env, a, b, d, Flip(left), true, after);
      TouchedIsIn(a.lines, Flip(left), Since(before), true, after, d);
    }
  }

  /** The same without the two records of the change. */
  lemma {:induction false} MovedOnce(env: Env, before: seq<Rec>, t: int, d: int, after: seq<Rec>)
    requires Splits(env) && NoChange(before) && NoChange(after) && t != 0 && NotNegative(Since(before), d)
    ensures var plain0, moved := PlainAt(env, before, t, d), Run(env, Init, Moved(before, d));
      Agree(Run(env, plain0, after), Run(env, moved, after)) <==>
      && BootIsFair(env, before, d)
      && forall l :: l in plain0.lines && !IsTouched(Since(before), l.line) ==> FirstFair(l, after, -d)
  {
    var a, moved, left := PlainAt(env, before, t, d), Run(env, Init, Moved(before, d)), LeftStale(env, before);
    AtChange(env, before, t, d);
    AfterChange(env, a, moved, -d, left, BootIsFair(env, before, d), after);
    TouchedIsIn(a.lines, left, Since(before), false, after, -d);
  }

  /** The log with one change, as written and as delivered, if acctcon accepts every record. */
  lemma {:induction false} OneChangeRuns(env: Env, before: seq<Rec>, t: int, d: int, after: seq<Rec>)
    requires NoChange(before) && NoChange(after) && AllAccepted(before) && AllAccepted(after) && Fix.Mode(before) > 0
    ensures var log, n := before + ClockPair(t, d) + after, |before|;
      && Delivered(log) == Moved(before, d) + ClockPair(t, d) + after
      && Written(env, log, n + 2) == PlainAt(env, before, t, d)
      && Corrected(env, log, n + 2) == PipedAt(env, before, t, d)
      && Written(env, log, |log|) == Run(env, PlainAt(env, before, t, d), after)
      && Corrected(env, log, |log|) == Run(env, PipedAt(env, before, t, d), after)
      && Run(env, Init, ValidOnly(Delivered(log)[..n] + Delivered(log)[n + 2..])) ==
         Run(env, Run(env, Init, Moved(before, d)), after)
  {
    var log, n := before + ClockPair(t, d) + after, |before|;
    var moved := Moved(before, d) + ClockPair(t, d);
    AcceptedLog(before, t, d, after);
    AcceptedSame(log);
    OneChangeFixed(before, t, d, after);
    assert Delivered(log) == moved + after;
    assert log[..n + 2] == before + ClockPair(t, d) && log[..|log|] == log;
    assert Delivered(log)[..n + 2] == moved && Delivered(log)[..|log|] == Delivered(log);
    assert Delivered(log)[..n] == Moved(before, d) && Delivered(log)[n + 2..] == after;
    AcceptedOnly(log[..n + 2]);
    AcceptedOnly(Delivered(log)[..n + 2]);
    AcceptedOnly(Moved(before, d) + after);
    RunConcat(env, Init, before + ClockPair(t, d), after);
    RunConcat(env, Init, moved, after);
    RunConcat(env, Init, Moved(before, d), after);
  }

  lemma {:induction false} AcceptedLog(before: seq<Rec>, t: int, d: int, after: seq<Rec>)
    requires AllAccepted(before) && AllAccepted(after)
    ensures AllAccepted(before + ClockPair(t, d) + after) && AllAccepted(Moved(before, d) + ClockPair(t, d) + after)
    ensures AllAccepted(Moved(before, d) + after)
  {
    forall i | 0 <= i < |before| ensures ValidRec(Moved(before, d)[i]) { MovedAt(before, d, i); }
  }

  /**
   * The accounts of a log with one change in multi-user mode, and those of the log corrected
   * by wtmpfix.  When the clock has been set they agree exactly if the last boot, which is
   * moved although the sessions it ends are not, is fair to the lines known then.  In the
   * end they still agree exactly if, for each line touched since that boot, the first later
   * record is fair to it.
   */
  lemma {:induction false} CorrectedTwice(env: Env, before: seq<Rec>, t: int, d: int, after: seq<Rec>)
    requires Splits(env) && NoChange(before) && NoChange(after) && Fix.Mode(before) > 0 && t != 0
    requires NotNegative(Since(before), d) && AllAccepted(before) && AllAccepted(after)
    ensures var log, n := before + ClockPair(t, d) + after, |before| + 2;
      && (AgreesAt(env, log, n) <==> forall l :: l in AtBoot(env, before).lines ==> FirstFair(l, Since(before), -d))
      && (AgreesAt(env, log, n) ==>
            (AgreesAt(env, log, |log|) <==>
             forall l :: l in Written(env, log, n).lines && IsTouched(Since(before), l.line) ==>
                 FirstFair(l, after, d)))
  {
    OneChangeRuns(env, before, t, d, after);
    MovedTwice(env, before, t, d, after);
  }

  /**
   * Without the two records, the accounts agree in the end exactly if they do when the clock
   * has been set, and the first later record is fair to each line not touched since the last
   * boot.  There are such lines only if acctcon passed over that boot: see AllTouched.
   */
  lemma {:induction false} CorrectedOnce(env: Env, before: seq<Rec>, t: int, d: int, after: seq<Rec>)
    requires Splits(env) && NoChange(before) && NoChange(after) && Fix.Mode(before) > 0 && t != 0
    requires NotNegative(Since(before), d) && AllAccepted(before) && AllAccepted(after)
    ensures var log, n := before + ClockPair(t, d) + after, |before|;
      var once := Run(env, Init, ValidOnly(Delivered(log)[..n] + Delivered(log)[n + 2..]));
      Agree(Written(env, log, |log|), once) <==>
      && AgreesAt(env, log, n + 2)
      && forall l :: l in Written(env, log, n + 2).lines && !IsTouched(Since(before), l.line) ==>
          FirstFair(l, after, -d)
  {
    OneChangeRuns(env, before, t, d, after);
    MovedTwice(env, before, t, d, after);
    MovedOnce(env, before, t, d, after);
  }

  /** A boot that names a line touches every line, and without a boot every line is new. */
  lemma {:induction false} AllTouched(env: Env, before: seq<Rec>, t: int, d: int, i: nat)
    requires NoChange(before) && t != 0 && i < |PlainAt(env, before, t, d).lines|
    requires forall i :: 0 <= i < |before| && before[i].kind == BootTime ==> before[i].line != ""
    ensures IsTouched(Since(before), PlainAt(env, before, t, d).lines[i].line)
  {
    var s, mid, line := AtBoot(env, before), Since(before), PlainAt(env, before, t, d).lines[i].line;
    RunSound(env, before);
    RunConcat(env, Init, before, ClockPair(t, d));
    PairIs(env, Run(env, Init, before), t, d);
    NoChangeParts(before);
    RunSound(env, Until(before));
    Parts(before, 0);
    RunConcat(env, Init, Until(before), mid);
    StaleExactly(env, s, AllStale(|s.lines|), mid);
    if i < |s.lines| {
      LastBootBoots(before);
      assert Touches(mid[0], line);
    }
  }

  lemma {:induction false} LastBootBoots(before: seq<Rec>)
    ensures before != [] ==> Fix.LastBoot(before) == 0 || before[Fix.LastBoot(before)].kind == BootTime
    decreases |before|
  {
    if before != [] { LastBootBoots(before[..|before| - 1]); }
  }

  // ---- What becomes of a session ----

  /**
   * The first later record on a line whose clock is d ahead in the corrected run.  A session
   * that it ends in both runs lasts d less; a record before the line's clock ends nothing.
   */
  lemma {:induction false} TouchedLate(env: Env, a: State, b: State, d: int, stale: seq<bool>, after: seq<Rec>, i: nat)
    requires Compared(a, b, 0, d, stale, true) && DistinctLines(a.lines) && NoChange(after)
    requires i < |stale| && stale[i] && IsTouched(after, a.lines[i].line)
    ensures var l, k := a.lines[i], FirstTouch(after, a.lines[i].line);
      var rec, x, y := after[k], Run(env, a, after[..k + 1]), Run(env, b, after[..k + 1]);
      && i < |x.lines| && i < |y.lines|
      && (EndsSession(l, Effect(rec)) ==>
            && x.lines[i].total == l.total + (if l.time <= rec.time then rec.time - l.time else 0)
            && y.lines[i].total == l.total + (if l.time + d <= rec.time then rec.time - l.time - d else 0))
      && (rec.kind != BootTime ==>
            && x.bad == Run(env, a, after[..k]).bad + (if l.time > rec.time then 1 else 0)
            && y.bad == Run(env, b, after[..k]).bad + (if l.time + d > rec.time then 1 else 0))
  {
    var k := FirstTouch(after, a.lines[i].line);
    assert SameLine(a.lines[i], b.lines[i]);
    assert DistinctLines(b.lines);
    TouchedFirst(env, a, after, i);
    TouchedFirst(env, b, after, i);
  }

  lemma {:induction false} TouchedFirst(env: Env, st: State, recs: seq<Rec>, i: nat)
    requires DistinctLines(st.lines) && st.datetime == 0 && NoChange(recs) && i < |st.lines|
    requires IsTouched(recs, st.lines[i].line)
    ensures var l, k := st.lines[i], FirstTouch(recs, st.lines[i].line);
      var rec, x := recs[k], Run(env, st, recs[..k + 1]);
      && i < |x.lines| && x.lines[i] == LineAfter(l, Effect(rec), NameIn(rec), rec.time)
      && (rec.kind != BootTime ==> x.bad == Run(env, st, recs[..k]).bad + (if l.time > rec.time then 1 else 0))
  {
    var l, k := st.lines[i], FirstTouch(recs, st.lines[i].line);
    var front, rec := recs[..k], recs[k];
    assert !IsTouched(front, l.line);
    Untouched(env, st, front, i);
    var s := Run(env, st, front);
    assert recs[..k + 1] == front + [rec];
    RunConcat(env, st, front, [rec]);
    assert [rec][1..] == [];
    assert Run(env, s, [rec]) == Step(env, s, rec);
    StepLines(env, s, rec);
    HitsIsTouches(s.lines, rec, i);
    if rec.kind != BootTime { UpdateIs(env, s, i, rec.kind, rec.name, rec.time); }
  }

  // ---- An example ----

  /** A login at 100 and a logout at 300, with the clock set from 200 to 250 between them. */
  const LOGIN: seq<Rec> := [Rec("run-level 2", "", RunLvl, 50), Rec("tty1", "bob", UserProcess, 100)]
  const LOGOUT: seq<Rec> := [Rec("tty1", "", DeadProcess, 300)]

  lemma {:induction false} LoginState(env: Env, name: string, time: int)
    requires time >= 0 && name != ""
    ensures var recs := [Rec("run-level 2", "", RunLvl, time - 50), Rec("tty1", name, UserProcess, time)];
      Run(env, Init, recs) == State([Line("tty1", name, time, 1, 1, 0, 0)], [], 0, 0, 0, [], [])
  {
    var recs := [Rec("run-level 2", "", RunLvl, time - 50), Rec("tty1", name, UserProcess, time)];
    assert recs[1..] == [recs[1]] && recs[1..][1..] == [];
    assert Step(env, Init, recs[0]) == Init;
    assert AddLine(Init, "tty1").lines == [Line("tty1", "", 0, 0, 0, 0, 0)];
    assert Run(env, Step(env, Init, recs[1]), []) == Step(env, Init, recs[1]);
  }

  lemma {:induction false} LogoutTime(env: Env, st: State)
    requires |st.lines| == 1 && st.lines[0].line == "tty1" && st.lines[0].name != "" && st.lines[0].time <= 300
    requires st.sessions == []
    ensures |Run(env, st, LOGOUT).sessions| == 1
    ensures Run(env, st, LOGOUT).sessions[0].time == 300 - st.lines[0].time
    ensures Run(env, st, LOGOUT).sessions[0].name == st.lines[0].name
  {
    assert LOGOUT[1..] == [];
    assert Lookup(st.lines, "tty1") == 0;
  }

  lemma {:induction false} LoginMoved()
    ensures Moved(LOGIN, 50) == ShiftRecs(LOGIN, 50)
  {
    assert Fix.LastBoot(LOGIN) == Fix.LastBoot(LOGIN[..1]) == 0;
    assert LOGIN[0..] == LOGIN;
  }

  lemma {:induction false} ModeTwo(rec: Rec)
    ensures Fix.Mode([Rec("run-level 2", "", RunLvl, 50), rec.(kind := UserProcess)]) == 1
  {
    var recs := [Rec("run-level 2", "", RunLvl, 50), rec.(kind := UserProcess)];
    assert Fix.StartsWith(recs[0].line, "run-level 2") && !Fix.StartsWith(recs[0].line, "run-level S");
    assert recs[..1] == [recs[0]] && recs[..1][..0] == [];
    assert Fix.Mode(recs[..1]) == 1;
  }

  lemma {:induction false} LoginAccepted()
    ensures AllAccepted(LOGIN) && AllAccepted(LOGOUT)
  {
    assert forall i :: 0 <= i < |"bob"| ==> IsNameChar("bob"[i]);
  }

  /** The session on the log as written, and on the moved one. */
  lemma {:induction false} TwiceTimes(env: Env)
    ensures
      var plain := Run(env, PlainAt(env, LOGIN, 200, 50), LOGOUT);
      var piped := Run(env, PipedAt(env, LOGIN, 200, 50), LOGOUT);
      && |plain.sessions| == 1 && plain.sessions[0].time == 150
      && |piped.sessions| == 1 && piped.sessions[0].time == 100
  {
    LoginMoved();
    LoginState(env, "bob", 100);
    LoginState(env, "bob", 150);
    assert ShiftRecs(LOGIN, 50) == [Rec("run-level 2", "", RunLvl, 100), Rec("tty1", "bob", UserProcess, 150)];
    var plain, piped := Run(env, Init, LOGIN), Run(env, Init, ShiftRecs(LOGIN, 50));
    PairIs(env, plain, 200, 50);
    PairIs(env, piped, 200, 50);
    RunConcat(env, Init, LOGIN, ClockPair(200, 50));
    RunConcat(env, Init, ShiftRecs(LOGIN, 50), ClockPair(200, 50));
    LogoutTime(env, PlainAt(env, LOGIN, 200, 50));
    LogoutTime(env, PipedAt(env, LOGIN, 200, 50));
  }

  lemma {:induction false} TwiceExample(env: Env)
    ensures var log := LOGIN + ClockPair(200, 50) + LOGOUT;
      var plain, piped := Written(env, log, |log|), Corrected(env, log, |log|);
      && |plain.sessions| == 1 && plain.sessions[0].time == 150
      && |piped.sessions| == 1 && piped.sessions[0].time == 100
  {
    ModeTwo(LOGIN[1]);
    LoginAccepted();
    OneChangeRuns(env, LOGIN, 200, 50, LOGOUT);
    TwiceTimes(env);
  }

  /** A login under a name that is not portable, and a logout, with no change between them. */
  const RUNLEVEL := Rec("run-level 2", "", RunLvl, 50)
  const BADLOGIN: seq<Rec> := [RUNLEVEL, Rec("tty1", "bo#b", UserProcess, 100)]
  const RENAMED: seq<Rec> := [RUNLEVEL, Rec("tty1", "INVALID", UserProcess, 100)]

  lemma {:induction false} BadLoginNames()
    ensures ValidRec(RUNLEVEL) && !ValidRec(BADLOGIN[1]) && Fix.BadName(BADLOGIN[1].name)
  {
    assert !IsNameChar("bo#b"[2]);
  }

  lemma {:induction false} BadLoginSkipped()
    ensures ValidOnly(BADLOGIN + LOGOUT) == [RUNLEVEL] + LOGOUT
  {
    BadLoginNames();
    LoginAccepted();
    AcceptedOnly(LOGOUT);
    assert (BADLOGIN + LOGOUT)[1..] == [BADLOGIN[1]] + LOGOUT;
    assert ([BADLOGIN[1]] + LOGOUT)[1..] == LOGOUT;
    assert ValidOnly([BADLOGIN[1]] + LOGOUT) == LOGOUT;
  }

  lemma {:induction false} BadLoginRenamed()
    ensures Delivered(BADLOGIN + LOGOUT) == RENAMED + LOGOUT && ValidOnly(RENAMED + LOGOUT) == RENAMED + LOGOUT
  {
    var log, copied := BADLOGIN + LOGOUT, RENAMED + LOGOUT;
    BadLoginNames();
    LoginAccepted();
    forall i | 0 <= i < 3 ensures Fix.Copied(log)[i] == copied[i] { assert i == 0 || i == 1 || i == 2; }
    assert Fix.Copied(log) == copied;
    forall i | 0 <= i < 3 ensures Fix.Adj(copied, i) == 0 { AheadNone(copied, i + 1); }
    assert Fix.Fixed(copied) == copied;
    InvalidAccepted(RENAMED[1]);
    AcceptedOnly(copied);
  }

  lemma {:induction false} LogoutAlone(env: Env)
    ensures Run(env, Init, [RUNLEVEL] + LOGOUT).sessions == []
  {
    RunConcat(env, Init, [RUNLEVEL], LOGOUT);
    assert [RUNLEVEL][1..] == [] && Run(env, Init, [RUNLEVEL]) == Init;
    assert LOGOUT[1..] == [] && Run(env, Init, LOGOUT) == Step(env, Init, LOGOUT[0]);
  }

  /** acctcon alone finds no session; after wtmpfix it finds one, for INVALID. */
  lemma {:induction false} RenamedExample(env: Env)
    ensures var log := BADLOGIN + LOGOUT;
      && Written(env, log, 3).sessions == []
      && |Corrected(env, log, 3).sessions| == 1 && Corrected(env, log, 3).sessions[0].name == "INVALID"
  {
    var log := BADLOGIN + LOGOUT;
    BadLoginSkipped();
    BadLoginRenamed();
    assert log[..3] == log && Delivered(log)[..3] == Delivered(log);
    LogoutAlone(env);
    LoginState(env, "INVALID", 100);
    RunConcat(env, Init, RENAMED, LOGOUT);
    LogoutTime(env, Run(env, Init, RENAMED));
  }

  /** A terminal gets ready, under a bad name and then under a good one. */
  const GETTY := Rec("tty1", "LOGIN", LoginProcess, 100)
  const READY: seq<Rec> := [GETTY.(name := "LO#IN"), GETTY]

  lemma {:induction false} ReadyDelivered()
    ensures Delivered(READY) == [GETTY.(name := "INVALID"), GETTY]
    ensures ValidRec(GETTY) && !ValidRec(READY[0])
  {
    var copied := [GETTY.(name := "INVALID"), GETTY];
    assert !IsNameChar("LO#IN"[2]);
    assert "LOGIN"[0] != '-' && forall i :: 0 <= i < |"LOGIN"| ==> IsNameChar("LOGIN"[i]);
    forall i | 0 <= i < 2 ensures Fix.Copied(READY)[i] == copied[i] { assert i == 0 || i == 1; }
    assert Fix.Copied(READY) == copied;
    forall i | 0 <= i < 2 ensures Fix.Adj(copied, i) == 0 { AheadNone(copied, i + 1); }
  }

  lemma {:induction false} GettyTwice(env: Env, name: string)
    ensures |Step(env, Init, GETTY.(name := name)).lines| == 1
    ensures Step(env, Step(env, Init, GETTY.(name := name)), GETTY) == Step(env, Init, GETTY)
  {
    var line := Line("tty1", "", 100, 0, 0, 0, 0);
    assert Step(env, Init, GETTY.(name := name)) == Init.(lines := [line]);
    assert Step(env, Init.(lines := [line]), GETTY) == Init.(lines := [line]);
  }

  lemma {:induction false} TwoTakes(env: Env, log: seq<Rec>)
    requires |log| == 2
    ensures Written(env, log, 1) == Take(env, Init, log[0])
    ensures Written(env, log, 2) == Take(env, Take(env, Init, log[0]), log[1])
    ensures Corrected(env, log, 1) == Take(env, Init, Delivered(log)[0])
    ensures Corrected(env, log, 2) == Take(env, Take(env, Init, Delivered(log)[0]), Delivered(log)[1])
  {
    assert log[..0] == [] && Delivered(log)[..0] == [];
    NightTakes(env, log, 0);
    NightTakes(env, log, 1);
  }

  /** Accounts that differ may agree again: only acctcon after wtmpfix knows the line at once. */
  lemma {:induction false} MendedExample(env: Env)
    ensures !AgreesAt(env, READY, 1) && AgreesAt(env, READY, 2)
  {
    ReadyDelivered();
    InvalidAccepted(Delivered(READY)[0]);
    TwoTakes(env, READY);
    GettyTwice(env, "INVALID");
  }
}
