/**
 * The nightly run on any log: acctcon on the output of wtmpfix, compared with acctcon on the
 * log as written.  The two programs disagree about times, and about names: wtmpfix renames
 * the bad ones, and acctcon passes over them.
 */
module AcctNight {
  import opened Utmpx
  import opened AcctConSpec
  import opened AcctConLaws
  import opened AcctSkew
  import opened AcctCon
  import Fix = WtmpFix

  /** The log as wtmpfix delivers it. */
  function Delivered(log: seq<Rec>): (r: seq<Rec>)
    ensures |r| == |log|
  {
    Fix.Fixed(Fix.Copied(log))
  }

  /** acctcon on one record. */
  function Take(env: Env, st: State, rec: Rec): State {
    if ValidRec(rec) then Step(env, st, rec) else st
  }

  function Kept(rec: Rec): seq<Rec> {
    if ValidRec(rec) then [rec] else []
  }

  lemma {:induction false} ValidOnlyAdd(recs: seq<Rec>, rec: Rec)
    ensures ValidOnly(recs + [rec]) == ValidOnly(recs) + Kept(rec)
    decreases |recs|
  {
    var all := recs + [rec];
    if recs == [] {
      assert all == [rec] && all[1..] == [];
      assert ValidOnly(all) == Kept(rec) + [];
    } else {
      var first, rest := Kept(recs[0]), ValidOnly(recs[1..]);
      assert all[1..] == recs[1..] + [rec];
      ValidOnlyAdd(recs[1..], rec);
      assert first + (rest + Kept(rec)) == first + rest + Kept(rec);
    }
  }

  lemma {:induction false} TakeNext(env: Env, recs: seq<Rec>, k: nat)
    requires k < |recs|
    ensures Run(env, Init, ValidOnly(recs[..k + 1])) == Take(env, Run(env, Init, ValidOnly(recs[..k])), recs[k])
  {
    assert recs[..k + 1] == recs[..k] + [recs[k]];
    ValidOnlyAdd(recs[..k], recs[k]);
    if ValidRec(recs[k]) {
      RunConcat(env, Init, ValidOnly(recs[..k]), [recs[k]]);
      assert [recs[k]][1..] == [];
    } else {
      assert ValidOnly(recs[..k]) + [] == ValidOnly(recs[..k]);
    }
  }

  // ---- How a record reaches the two runs ----

  /** Delivered as y, the record x keeps its kind and line, and its name if acctcon accepts it. */
  predicate Becomes(x: Rec, y: Rec) {
    && y.kind == x.kind && y.line == x.line
    && (ValidRec(x) ==> ValidRec(y) && y.name == x.name)
  }

  lemma {:induction false} DeliveredAt(log: seq<Rec>, k: nat)
    requires k < |log|
    ensures Becomes(log[k], Delivered(log)[k])
    ensures Fix.BadName(log[k].name) && (k == 0 || log[k - 1].kind != OldTime) ==> Delivered(log)[k].name == "INVALID"
  {
    if ValidRec(log[k]) { assert !Fix.BadName(log[k].name); }
  }

  // ---- Clocks of the second run ----

  /** The times of the lines, and the old time of a change. */
  datatype Clocks = Clocks(times: seq<int>, pending: int)

  function ClocksOf(st: State): (c: Clocks)
    ensures |c.times| == |st.lines| && c.pending == st.datetime
    ensures forall i :: 0 <= i < |c.times| ==> c.times[i] == st.lines[i].time
  {
    Clocks(seq(|st.lines|, i requires 0 <= i < |st.lines| => st.lines[i].time), st.datetime)
  }

  function Same(n: nat, time: int): (r: seq<int>)
    ensures |r| == n && forall i :: 0 <= i < n ==> r[i] == time
  {
    seq(n, _ => time)
  }

  function Later(times: seq<int>, d: int): (r: seq<int>)
    ensures |r| == |times| && forall i :: 0 <= i < |r| ==> r[i] == times[i] + d
  {
    seq(|times|, i requires 0 <= i < |times| => times[i] + d)
  }

  /** What a record does to them; lines names the lines. */
  function NextClocks(lines: seq<Line>, c: Clocks, y: Rec): Clocks {
    if !ValidRec(y) || y.line == "" then c
    else if y.kind == OldTime then c.(pending := y.time)
    else if y.kind == NewTime then
      if c.pending == 0 then c else Clocks(Later(c.times, y.time - c.pending), 0)
    else if y.kind == BootTime then c.(times := Same(|c.times|, y.time))
    else if OnLine(y.kind) then
      var i := Lookup(lines, y.line);
      c.(times := if i < |c.times| then c.times[i := y.time] else c.times + [y.time])
    else c
  }

  lemma {:induction false} ClocksNext(env: Env, lines: seq<Line>, b: State, y: Rec)
    requires |lines| == |b.lines| && forall i :: 0 <= i < |lines| ==> lines[i].line == b.lines[i].line
    ensures ClocksOf(Take(env, b, y)) == NextClocks(lines, ClocksOf(b), y)
  {
    var r, c := ClocksOf(Take(env, b, y)), NextClocks(lines, ClocksOf(b), y);
    if ValidRec(y) && y.line != "" {
      if y.kind == BootTime {
        UpFromSize(env, b, 0, y.time);
        forall i | 0 <= i < |b.lines| ensures r.times[i] == y.time { UpFromLine(env, b, 0, y.time, i); }
      } else if OnLine(y.kind) {
        LookupSame(lines, b.lines, y.line);
        TouchTimes(env, b, y);
      }
    }
    assert r.times == c.times;
  }

  lemma {:induction false} TouchTimes(env: Env, b: State, y: Rec)
    ensures var i, r := Lookup(b.lines, y.line), Touch(env, b, y);
      && ClocksOf(r).times == (if i < |b.lines| then ClocksOf(b).times[i := y.time] else ClocksOf(b).times + [y.time])
      && r.datetime == b.datetime
  {
    var i, added := Lookup(b.lines, y.line), AddLine(b, y.line);
    UpdateIs(env, added, i, y.kind, y.name, y.time);
  }

  // ---- One update in both runs ----

  /** The update comes to the same on a line and on one with another clock. */
  predicate FairUpdate(l: Line, clock: int, kind: Kind, time: int, later: int) {
    && (l.time > time <==> clock > later)
    && (l.time <= time && EndsSession(l, kind) ==> time - l.time == later - clock)
  }

  lemma {:induction false} LineExactly(l: Line, m: Line, kind: Kind, name: string, time: int, later: int)
    requires SameLine(l, m)
    ensures FairUpdate(l, m.time, kind, time, later) <==>
            && SameLine(LineAfter(l, kind, name, time), LineAfter(m, kind, name, later))
            && (l.time > time <==> m.time > later)
    ensures kind == DeadProcess && SameLine(LineAfter(l, kind, name, time), LineAfter(m, kind, name, later)) ==>
            FairUpdate(l, m.time, kind, time, later)
  {}

  lemma {:induction false} EntersSame(env: Env, a: State, b: State, i: nat, kind: Kind, name: string, time: int,
                                      later: int)
    requires Splits(env) && Agree(a, b) && i < |a.lines|
    requires FairUpdate(a.lines[i], b.lines[i].time, kind, time, later)
    ensures var a1, b1 := Update(env, a, i, kind, name, time), Update(env, b, i, kind, name, later);
      SameSessions(a1.sessions, b1.sessions) && SameUsers(a1.users, b1.users)
  {
    UpdateEnters(env, a, i, kind, name, time);
    UpdateEnters(env, b, i, kind, name, later);
    var l, m := a.lines[i], b.lines[i];
    assert SameLine(l, m);
    if l.time <= time && EndsSession(l, kind) {
      EnterSame(a.users, b.users, env.uidOf(l.name), l.name, env.split(l.time, time - l.time),
                env.split(m.time, later - m.time));
    }
  }

  lemma {:induction false} UpdateExactly(env: Env, a: State, b: State, i: nat, kind: Kind, name: string, time: int,
                                         later: int)
    requires Splits(env) && Agree(a, b) && i < |a.lines|
    ensures Agree(Update(env, a, i, kind, name, time), Update(env, b, i, kind, name, later)) <==>
            FairUpdate(a.lines[i], b.lines[i].time, kind, time, later)
  {
    var l, m := a.lines[i], b.lines[i];
    var x, y := LineAfter(l, kind, name, time), LineAfter(m, kind, name, later);
    assert SameLine(l, m);
    LineExactly(l, m, kind, name, time, later);
    UpdateIs(env, a, i, kind, name, time);
    UpdateIs(env, b, i, kind, name, later);
    if FairUpdate(l, m.time, kind, time, later) {
      EntersSame(env, a, b, i, kind, name, time, later);
      SetAgrees(a.lines, b.lines, i, x, y);
    } else if SameLines(a.lines[i := x], b.lines[i := y]) {
      assert SameLine(a.lines[i := x][i], b.lines[i := y][i]);
    }
  }

  // ---- A boot in both runs ----

  predicate FairBoot(lines: seq<Line>, c: Clocks, i: nat, time: int, later: int) {
    forall j :: i <= j < |lines| && j < |c.times| ==> FairUpdate(lines[j], c.times[j], DeadProcess, time, later)
  }

  lemma {:induction false} FairUpFrom(env: Env, a: State, b: State, i: nat, time: int, later: int)
    requires Splits(env) && Agree(a, b) && FairBoot(a.lines, ClocksOf(b), i, time, later)
    ensures Agree(UpFrom(env, a, i, time), UpFrom(env, b, i, later))
    decreases |a.lines| - i
  {
    if i < |a.lines| {
      var a1, b1 := Update(env, a, i, DeadProcess, "", time), Update(env, b, i, DeadProcess, "", later);
      UpdateIs(env, a, i, DeadProcess, "", time);
      UpdateIs(env, b, i, DeadProcess, "", later);
      UpdateExactly(env, a, b, i, DeadProcess, "", time, later);
      FairUpFrom(env, a1, b1, i + 1, time, later);
    }
  }

  lemma {:induction false} BootExactly(env: Env, a: State, b: State, time: int, later: int)
    requires Splits(env) && Agree(a, b)
    ensures Agree(UpFrom(env, a, 0, time), UpFrom(env, b, 0, later)) <==> FairBoot(a.lines, ClocksOf(b), 0, time, later)
  {
    var a1, b1 := UpFrom(env, a, 0, time), UpFrom(env, b, 0, later);
    if FairBoot(a.lines, ClocksOf(b), 0, time, later) {
      FairUpFrom(env, a, b, 0, time, later);
    } else {
      var j :| 0 <= j < |a.lines| && !FairUpdate(a.lines[j], b.lines[j].time, DeadProcess, time, later);
      UpFromLine(env, a, 0, time, j);
      UpFromLine(env, b, 0, later, j);
      assert SameLine(a.lines[j], b.lines[j]);
      LineExactly(a.lines[j], b.lines[j], DeadProcess, "", time, later);
      assert !SameLine(a1.lines[j], b1.lines[j]);
    }
  }

  // ---- A record that only the second run sees ----

  lemma {:induction false} BootCounts(env: Env, st: State, i: nat, time: int)
    ensures UpFrom(env, st, i, time).bad >= st.bad
    ensures i < |st.lines| && st.lines[i].time > time ==> UpFrom(env, st, i, time).bad > st.bad
    decreases |st.lines| - i
  {
    if i < |st.lines| {
      UpdateIs(env, st, i, DeadProcess, "", time);
      BootCounts(env, Update(env, st, i, DeadProcess, "", time), i + 1, time);
    }
  }

  /** A boot changes every line: it is logged off, or the time is reported. */
  lemma {:induction false} BootAlone(env: Env, a: State, b: State, time: int)
    requires Agree(a, b)
    ensures Agree(a, UpFrom(env, b, 0, time)) <==> a.lines == []
  {
    var r := UpFrom(env, b, 0, time);
    if a.lines != [] {
      assert SameLine(a.lines[0], b.lines[0]);
      UpFromLine(env, b, 0, time, 0);
      BootCounts(env, b, 0, time);
      if b.lines[0].time <= time { assert !SameLine(a.lines[0], r.lines[0]); }
    }
  }

  /** So does a login or logout; another record on a known line may set its clock only. */
  predicate IsIdle(times: seq<int>, i: nat, y: Rec) {
    i < |times| && times[i] <= y.time && (y.kind == LoginProcess || y.kind == InitProcess)
  }

  lemma {:induction false} UpdateAlone(env: Env, a: State, b: State, i: nat, y: Rec)
    requires Agree(a, b) && i < |b.lines| && OnLine(y.kind)
    ensures Agree(a, Update(env, b, i, y.kind, y.name, y.time)) <==> IsIdle(ClocksOf(b).times, i, y)
  {
    var r := Update(env, b, i, y.kind, y.name, y.time);
    assert SameLine(a.lines[i], b.lines[i]);
    UpdateIs(env, b, i, y.kind, y.name, y.time);
    UpdateEnters(env, b, i, y.kind, y.name, y.time);
    if b.lines[i].time <= y.time && (y.kind == UserProcess || y.kind == DeadProcess) {
      assert !SameLine(a.lines[i], r.lines[i]);
    }
  }

  lemma {:induction false} TouchAlone(env: Env, a: State, b: State, y: Rec)
    requires Agree(a, b) && OnLine(y.kind)
    ensures Agree(a, Touch(env, b, y)) <==> IsIdle(ClocksOf(b).times, Lookup(b.lines, y.line), y)
  {
    var i := Lookup(b.lines, y.line);
    if i < |b.lines| {
      TouchOld(env, b, y, i);
      UpdateAlone(env, a, b, i, y);
    } else {
      TouchAdded(env, b, y);
      UpdateIs(env, b.(lines := b.lines + [Line(y.line, "", 0, 0, 0, 0, 0)]), |b.lines|, y.kind, y.name, y.time);
    }
  }

  // ---- A record in both runs ----

  function LineAt(lines: seq<Line>, i: nat, line: string): Line {
    if i < |lines| then lines[i] else Line(line, "", 0, 0, 0, 0, 0)
  }

  function TimeAt(times: seq<int>, i: nat): int {
    if i < |times| then times[i] else 0
  }

  lemma {:induction false} TouchBoth(env: Env, a: State, b: State, x: Rec, y: Rec)
    requires Splits(env) && Agree(a, b) && Becomes(x, y) && y.name == x.name
    ensures var i := Lookup(a.lines, x.line);
      Agree(Touch(env, a, x), Touch(env, b, y)) <==>
      FairUpdate(LineAt(a.lines, i, x.line), TimeAt(ClocksOf(b).times, i), x.kind, x.time, y.time)
  {
    var i := Lookup(a.lines, x.line);
    AgreeNames(a, b);
    LookupSame(a.lines, b.lines, x.line);
    if i < |a.lines| {
      TouchOld(env, a, x, i);
      TouchOld(env, b, y, i);
      UpdateExactly(env, a, b, i, x.kind, x.name, x.time, y.time);
    } else {
      var l := Line(x.line, "", 0, 0, 0, 0, 0);
      var a1, b1 := a.(lines := a.lines + [l]), b.(lines := b.lines + [l]);
      TouchAdded(env, a, x);
      TouchAdded(env, b, y);
      AgreeAdd(a, b, l);
      UpdateExactly(env, a1, b1, i, x.kind, x.name, x.time, y.time);
    }
  }

  lemma {:induction false} AgreeNames(a: State, b: State)
    requires Agree(a, b)
    ensures |a.lines| == |b.lines| && forall i :: 0 <= i < |a.lines| ==> a.lines[i].line == b.lines[i].line
  {
    forall i | 0 <= i < |a.lines| ensures a.lines[i].line == b.lines[i].line {
      assert SameLine(a.lines[i], b.lines[i]);
    }
  }

  lemma {:induction false} AgreeAdd(a: State, b: State, l: Line)
    requires Agree(a, b)
    ensures Agree(a.(lines := a.lines + [l]), b.(lines := b.lines + [l]))
  {}

  /** A change of the clock, seen or not, changes no account. */
  lemma {:induction false} ClockAgrees(env: Env, a: State, b: State, y: Rec)
    requires Agree(a, b) && (y.kind == OldTime || y.kind == NewTime)
    ensures Agree(a, Step(env, b, y)) && (Agree(b, a) ==> Agree(Step(env, b, y), a))
  {
    var d := y.time - b.datetime;
    forall i | 0 <= i < |a.lines|
      ensures SameLine(a.lines[i], b.lines[i]) && SameLine(a.lines[i], ShiftLines(b.lines, d)[i])
    {}
  }

  lemma {:induction false} AgreeSymmetric(a: State, b: State)
    requires Agree(a, b)
    ensures Agree(b, a)
  {
    forall i | 0 <= i < |a.lines| ensures SameLine(b.lines[i], a.lines[i]) { assert SameLine(a.lines[i], b.lines[i]); }
  }

  lemma {:induction false} ClockBoth(env: Env, a: State, b: State, x: Rec, y: Rec)
    requires Agree(a, b) && Becomes(x, y) && (y.kind == OldTime || y.kind == NewTime)
    ensures Agree(Step(env, a, x), Step(env, b, y))
  {
    ClockAgrees(env, a, b, y);
    AgreeSymmetric(a, Step(env, b, y));
    ClockAgrees(env, Step(env, b, y), a, x);
    AgreeSymmetric(Step(env, b, y), Step(env, a, x));
  }

  // ---- Every record ----

  /** A record that both runs see is fair to the lines it touches; one seen only as renamed is idle. */
  predicate FairStep(lines: seq<Line>, c: Clocks, x: Rec, y: Rec) {
    if !ValidRec(y) || y.line == "" then true
    else if y.kind == BootTime then
      if ValidRec(x) then FairBoot(lines, c, 0, x.time, y.time) else lines == []
    else if OnLine(y.kind) then
      var i := Lookup(lines, y.line);
      if ValidRec(x) then FairUpdate(LineAt(lines, i, y.line), TimeAt(c.times, i), y.kind, x.time, y.time)
      else IsIdle(c.times, i, y)
    else true
  }

  lemma {:induction false} TakeExactly(env: Env, a: State, b: State, x: Rec, y: Rec)
    requires Splits(env) && Agree(a, b) && Becomes(x, y)
    ensures Agree(Take(env, a, x), Take(env, b, y)) <==> FairStep(a.lines, ClocksOf(b), x, y)
  {
    AgreeNames(a, b);
    if ValidRec(y) && y.line != "" {
      LookupSame(a.lines, b.lines, y.line);
      if y.kind == BootTime {
        if ValidRec(x) { BootExactly(env, a, b, x.time, y.time); } else { BootAlone(env, a, b, y.time); }
      } else if OnLine(y.kind) {
        if ValidRec(x) { TouchBoth(env, a, b, x, y); } else { TouchAlone(env, a, b, y); }
      } else if y.kind == OldTime || y.kind == NewTime {
        if ValidRec(x) { ClockBoth(env, a, b, x, y); } else { ClockAgrees(env, a, b, y); }
      }
    }
  }

  /** The records from k on, met by the lines of the first run and the clocks of the second. */
  predicate FairFrom(env: Env, st: State, c: Clocks, log: seq<Rec>, fixed: seq<Rec>, k: nat)
    requires |log| == |fixed|
    decreases |log| - k
  {
    k >= |log| ||
    (&& FairStep(st.lines, c, log[k], fixed[k])
     && FairFrom(env, Take(env, st, log[k]), NextClocks(st.lines, c, fixed[k]), log, fixed, k + 1))
  }

  /** The accounts when k records have been read. */
  function Written(env: Env, log: seq<Rec>, k: nat): State
    requires k <= |log|
  {
    Run(env, Init, ValidOnly(log[..k]))
  }

  function Corrected(env: Env, log: seq<Rec>, k: nat): State
    requires k <= |log|
  {
    Run(env, Init, ValidOnly(Delivered(log)[..k]))
  }

  predicate AgreesAt(env: Env, log: seq<Rec>, k: nat)
    requires k <= |log|
  {
    Agree(Written(env, log, k), Corrected(env, log, k))
  }

  /** One record of the log, in the two runs. */
  lemma {:induction false} NightTakes(env: Env, log: seq<Rec>, k: nat)
    requires k < |log|
    ensures Written(env, log, k + 1) == Take(env, Written(env, log, k), log[k])
    ensures Corrected(env, log, k + 1) == Take(env, Corrected(env, log, k), Delivered(log)[k])
  {
    TakeNext(env, log, k);
    TakeNext(env, Delivered(log), k);
  }

  lemma {:induction false} NightStep(env: Env, a: State, b: State, a1: State, b1: State, x: Rec, y: Rec)
    requires Splits(env) && Agree(a, b) && Becomes(x, y) && a1 == Take(env, a, x) && b1 == Take(env, b, y)
    ensures Agree(a1, b1) <==> FairStep(a.lines, ClocksOf(b), x, y)
    ensures ClocksOf(b1) == NextClocks(a.lines, ClocksOf(b), y)
  {
    TakeExactly(env, a, b, x, y);
    AgreeNames(a, b);
    ClocksNext(env, a.lines, b, y);
  }

  lemma {:induction false} NightAt(env: Env, log: seq<Rec>, k: nat)
    requires Splits(env) && k < |log| && AgreesAt(env, log, k)
    ensures AgreesAt(env, log, k + 1) <==>
            FairStep(Written(env, log, k).lines, ClocksOf(Corrected(env, log, k)), log[k], Delivered(log)[k])
    ensures ClocksOf(Corrected(env, log, k + 1)) ==
            NextClocks(Written(env, log, k).lines, ClocksOf(Corrected(env, log, k)), Delivered(log)[k])
  {
    NightTakes(env, log, k);
    DeliveredAt(log, k);
    NightStep(env, Written(env, log, k), Corrected(env, log, k), Written(env, log, k + 1), Corrected(env, log, k + 1),
              log[k], Delivered(log)[k]);
  }

  /** They agree from the record k on. */
  predicate AgreesFrom(env: Env, log: seq<Rec>, k: nat)
    requires k <= |log|
    decreases |log| - k
  {
    AgreesAt(env, log, k) && (k < |log| ==> AgreesFrom(env, log, k + 1))
  }

  lemma {:induction false} AgreesLater(env: Env, log: seq<Rec>, k: nat, j: nat)
    requires k <= j <= |log| && AgreesFrom(env, log, k)
    ensures AgreesAt(env, log, j)
    decreases j - k
  {
    if k < j { AgreesLater(env, log, k + 1, j); }
  }

  lemma {:induction false} AgreesAlways(env: Env, log: seq<Rec>, k: nat)
    requires k <= |log| && forall j :: k <= j <= |log| ==> AgreesAt(env, log, j)
    ensures AgreesFrom(env, log, k)
    decreases |log| - k
  {
    if k < |log| { AgreesAlways(env, log, k + 1); }
  }

  predicate FairRest(env: Env, log: seq<Rec>, k: nat)
    requires k <= |log|
  {
    FairFrom(env, Written(env, log, k), ClocksOf(Corrected(env, log, k)), log, Delivered(log), k)
  }

  lemma {:induction false} FairRestNext(env: Env, log: seq<Rec>, k: nat)
    requires Splits(env) && k < |log| && AgreesAt(env, log, k)
    ensures FairRest(env, log, k) <==> AgreesAt(env, log, k + 1) && FairRest(env, log, k + 1)
  {
    NightAt(env, log, k);
    NightTakes(env, log, k);
  }

  lemma {:induction false} NightFrom(env: Env, log: seq<Rec>, k: nat)
    requires Splits(env) && k <= |log| && AgreesAt(env, log, k)
    ensures AgreesFrom(env, log, k) <==> FairRest(env, log, k)
    decreases |log| - k
  {
    if k < |log| {
      FairRestNext(env, log, k);
      if AgreesAt(env, log, k + 1) { NightFrom(env, log, k + 1); }
    }
  }

  /**
   * The accounts of the corrected log are those of the log as written, after every record,
   * exactly if every record is fair.  This is for every log: any number of changes and
   * boots, and any names.
   */
  lemma {:induction false} NightExactly(env: Env, log: seq<Rec>)
    requires Splits(env)
    ensures (forall k :: 0 <= k <= |log| ==> AgreesAt(env, log, k)) <==>
            FairFrom(env, Init, Clocks([], 0), log, Delivered(log), 0)
  {
    assert log[..0] == [] && Delivered(log)[..0] == [];
    assert ClocksOf(Init) == Clocks([], 0);
    NightFrom(env, log, 0);
    if AgreesFrom(env, log, 0) {
      forall k | 0 <= k <= |log| ensures AgreesAt(env, log, k) { AgreesLater(env, log, 0, k); }
    }
    if forall k :: 0 <= k <= |log| ==> AgreesAt(env, log, k) { AgreesAlways(env, log, 0); }
  }

  /** The two programs, one after the other, on one file. */
  method Night(env: Env, log: seq<Rec>) returns (ok: bool, tables: Tables)
    ensures ok == (Fix.Paired(log) && Fix.AllValid(log))
    ensures tables.View() == if ok then Corrected(env, log, |log|) else Init
    ensures tables.env == env && fresh(tables)
  {
    var fixer := new Fix.Fixer();
    var out;
    assert Fix.CopiedAll([log][..0]) == [];
    assert Fix.CopiedAll([log]) == Fix.Copied(log);
    ok, out := fixer.Fix([log]);
    assert Fix.AllValid(Fix.Copied(log)) <==> Fix.AllValid(log) by {
      forall i | 0 <= i < |log| ensures Fix.Copied(log)[i].kind == log[i].kind {}
    }
    tables := new Tables(env);
    if ok {
      tables.Read(out);
      assert Delivered(log)[..|log|] == Delivered(log);
    }
  }

  // ---- Names ----

  /** A login or logout whose name is renamed makes the accounts differ. */
  lemma {:induction false} RenamedLogin(env: Env, log: seq<Rec>, k: nat)
    requires Splits(env) && k < |log| && Fix.BadName(log[k].name) && log[k].line != ""
    requires log[k].kind == UserProcess || log[k].kind == DeadProcess
    requires k == 0 || log[k - 1].kind != OldTime
    ensures !AgreesAt(env, log, k) || !AgreesAt(env, log, k + 1)
  {
    DeliveredAt(log, k);
    InvalidAccepted(Delivered(log)[k]);
    if AgreesAt(env, log, k) { NightAt(env, log, k); }
  }

  lemma {:induction false} InvalidAccepted(rec: Rec)
    requires rec.name == "INVALID" && rec.kind != Invalid
    ensures ValidRec(rec)
  {
    assert "INVALID"[0] != '-' && forall i :: 0 <= i < |"INVALID"| ==> IsNameChar("INVALID"[i]);
  }

  predicate AllAccepted(recs: seq<Rec>) {
    forall i :: 0 <= i < |recs| ==> ValidRec(recs[i])
  }

  /** If acctcon accepts every record, neither program looks at names. */
  lemma {:induction false} AcceptedSame(log: seq<Rec>)
    requires AllAccepted(log)
    ensures ValidOnly(log) == log && Fix.Copied(log) == log
    ensures AllAccepted(Fix.Fixed(log)) && ValidOnly(Fix.Fixed(log)) == Fix.Fixed(log)
  {
    AcceptedOnly(log);
    forall i | 0 <= i < |log| ensures Fix.Copied(log)[i] == log[i] { assert ValidRec(log[i]); }
    AcceptedOnly(Fix.Fixed(log));
  }

  lemma {:induction false} AcceptedOnly(recs: seq<Rec>)
    requires AllAccepted(recs)
    ensures ValidOnly(recs) == recs
    decreases |recs|
  {
    if recs != [] {
      AcceptedOnly(recs[1..]);
      assert recs == [recs[0]] + recs[1..];
    }
  }
}
