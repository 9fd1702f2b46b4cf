/**
 * Two runs of acctcon on logs that differ in their times only.  In the second every record is
 * e later, and some lines, the stale ones, were last touched when the difference was e + gap.
 */
module AcctSkew {
  import opened Utmpx
  import opened AcctConSpec
  import opened AcctConLaws

  // ---- What a record does to a line ----

  predicate OnLine(kind: Kind) {
    kind == UserProcess || kind == LoginProcess || kind == InitProcess || kind == DeadProcess
  }

  /** The record is for this line, or for all. */
  predicate Touches(rec: Rec, line: string) {
    rec.line != "" && (rec.kind == BootTime || (OnLine(rec.kind) && rec.line == line))
  }

  /** The first record that touches a line, or the number of records. */
  function FirstTouch(recs: seq<Rec>, line: string): (k: nat)
    ensures k <= |recs| && (k < |recs| ==> Touches(recs[k], line))
    ensures forall j :: 0 <= j < k ==> !Touches(recs[j], line)
  {
    if recs == [] || Touches(recs[0], line) then 0 else 1 + FirstTouch(recs[1..], line)
  }

  predicate IsTouched(recs: seq<Rec>, line: string) {
    FirstTouch(recs, line) < |recs|
  }

  /** The kind of update that a record makes. */
  function Effect(rec: Rec): Kind {
    if rec.kind == BootTime then DeadProcess else rec.kind
  }

  predicate EndsSession(l: Line, kind: Kind) {
    l.name != "" && (kind == UserProcess || kind == DeadProcess)
  }

  /**
   * An update at this time comes to the same on the line and on one whose clock is gap ahead:
   * it is too early for both, or for neither and ends no session.
   */
  predicate Fair(l: Line, kind: Kind, time: int, gap: int) {
    gap == 0 ||
    (l.time > time && l.time + gap > time) ||
    (l.time <= time && l.time + gap <= time && !EndsSession(l, kind))
  }

  /** The first record that touches the line is fair to it. */
  predicate FirstFair(l: Line, recs: seq<Rec>, gap: int) {
    var k := FirstTouch(recs, l.line);
    k < |recs| ==> Fair(l, Effect(recs[k]), recs[k].time, gap)
  }

  // ---- The two runs compared ----

  predicate SameLine(a: Line, b: Line) {
    b == a.(time := b.time)
  }

  predicate SameLines(a: seq<Line>, b: seq<Line>) {
    |a| == |b| && forall i :: 0 <= i < |a| ==> SameLine(a[i], b[i])
  }

  /** The accounts are the same: sessions, totals, counts and complaints. */
  predicate Agree(a: State, b: State) {
    SameLines(a.lines, b.lines) && a.bad == b.bad && SameSessions(a.sessions, b.sessions) && SameUsers(a.users, b.users)
  }

  function Offset(e: int, gap: int, stale: bool): int {
    if stale then e + gap else e
  }

  /** The clocks are apart as the stale lines say, and no change of the clock is pending. */
  predicate Apart(a: State, b: State, e: int, gap: int, stale: seq<bool>) {
    && |a.lines| == |b.lines| == |stale| && a.datetime == 0 && b.datetime == 0
    && (forall i :: 0 <= i < |stale| ==> b.lines[i].line == a.lines[i].line)
    && (forall i :: 0 <= i < |stale| ==> b.lines[i].time == a.lines[i].time + Offset(e, gap, stale[i]))
  }

  /** The accounts differ, in a way that later records do not undo. */
  predicate Spoiled(a: State, b: State, gap: int, stale: seq<bool>) {
    && gap != 0 && (gap > 0 ==> a.bad <= b.bad) && (gap < 0 ==> b.bad <= a.bad)
    && (a.bad != b.bad || exists i :: 0 <= i < |stale| && IsSpoiled(a, b, gap, stale, i))
  }

  /** A session on line i came out too short by the gap. */
  predicate IsSpoiled(a: State, b: State, gap: int, stale: seq<bool>, i: nat) {
    && i < |stale| && i < |a.lines| && i < |b.lines|
    && !stale[i] && a.lines[i].name == b.lines[i].name && a.lines[i].total - b.lines[i].total == gap
  }

  /** Either the accounts agree so far, or they have come apart for good. */
  predicate Compared(a: State, b: State, e: int, gap: int, stale: seq<bool>, fair: bool) {
    Apart(a, b, e, gap, stale) && if fair then Agree(a, b) else Spoiled(a, b, gap, stale)
  }

  lemma {:induction false} ComparedSays(a: State, b: State, e: int, gap: int, stale: seq<bool>, fair: bool)
    requires Compared(a, b, e, gap, stale, fair)
    ensures Agree(a, b) <==> fair
  {
    if !fair && a.bad == b.bad {
      var i :| 0 <= i < |stale| && IsSpoiled(a, b, gap, stale, i);
      assert !SameLine(a.lines[i], b.lines[i]);
    }
  }

  // ---- One update ----

  /** What update does to its line. */
  function LineAfter(l: Line, kind: Kind, name: string, time: int): Line {
    var l1 := l.(time := time);
    if l.time > time then l1
    else
      var l2 := if EndsSession(l, kind) then l1.(total := l.total + (time - l.time)) else l1;
      if kind == UserProcess then
        l2.(sess := l.sess + 1, on := if l.name == "" then l.on + 1 else l.on, name := name)
      else if kind == DeadProcess then l2.(off := l.off + 1, name := "")
      else l2
  }

  lemma {:induction false} UpdateIs(env: Env, st: State, i: nat, kind: Kind, name: string, time: int)
    requires i < |st.lines|
    ensures var r := Update(env, st, i, kind, name, time);
      && r.lines == st.lines[i := LineAfter(st.lines[i], kind, name, time)]
      && r.bad == st.bad + (if st.lines[i].time > time then 1 else 0)
      && r.datetime == st.datetime
  {
    var l := st.lines[i];
    var r := Update(env, st, i, kind, name, time);
    assert r.lines[i] == LineAfter(l, kind, name, time);
    assert r.lines == st.lines[i := r.lines[i]];
  }

  /** A session, if the update ends one, is entered for its user. */
  lemma {:induction false} UpdateEnters(env: Env, st: State, i: nat, kind: Kind, name: string, time: int)
    requires i < |st.lines|
    ensures var r, l := Update(env, st, i, kind, name, time), st.lines[i];
      if l.time <= time && EndsSession(l, kind) then
        && r.sessions == st.sessions +
             [Session(i, l.name, env.uidOf(l.name), l.time, time - l.time, kind == UserProcess)]
        && r.users == Enter(st.users, env.uidOf(l.name), l.name, env.split(l.time, time - l.time))
      else r.sessions == st.sessions && r.users == st.users
  {}

  lemma {:induction false} UpdateApart(env: Env, a: State, b: State, e: int, gap: int, stale: seq<bool>,
                                       i: nat, kind: Kind, name: string, time: int)
    requires Apart(a, b, e, gap, stale) && i < |stale|
    ensures Apart(Update(env, a, i, kind, name, time), Update(env, b, i, kind, name, time + e), e, gap,
                  stale[i := false])
  {
    UpdateIs(env, a, i, kind, name, time);
    UpdateIs(env, b, i, kind, name, time + e);
  }

  /** A fair update keeps a line the same. */
  lemma {:induction false} LineAgrees(l: Line, m: Line, e: int, gap: int, stale: bool, kind: Kind, name: string,
                                      time: int)
    requires SameLine(l, m) && m.time == l.time + Offset(e, gap, stale) && (stale ==> Fair(l, kind, time, gap))
    ensures SameLine(LineAfter(l, kind, name, time), LineAfter(m, kind, name, time + e))
    ensures l.time > time <==> m.time > time + e
    ensures l.time <= time && EndsSession(l, kind) ==> m.time == l.time + e
  {}

  /** Sessions and users after an update that ends the same session, or none, in both. */
  lemma {:induction false} EntersAgree(env: Env, a: State, b: State, e: int, i: nat, kind: Kind, name: string,
                                       time: int)
    requires Splits(env) && Agree(a, b) && i < |a.lines|
    requires var l, m := a.lines[i], b.lines[i];
      (l.time > time <==> m.time > time + e) && (l.time <= time && EndsSession(l, kind) ==> m.time == l.time + e)
    ensures var a1, b1 := Update(env, a, i, kind, name, time), Update(env, b, i, kind, name, time + e);
      SameSessions(a1.sessions, b1.sessions) && SameUsers(a1.users, b1.users)
  {
    UpdateEnters(env, a, i, kind, name, time);
    UpdateEnters(env, b, i, kind, name, time + e);
    var l, m := a.lines[i], b.lines[i];
    assert SameLine(l, m);
    if l.time <= time && EndsSession(l, kind) {
      EnterSame(a.users, b.users, env.uidOf(l.name), l.name, env.split(l.time, time - l.time),
                env.split(m.time, time + e - m.time));
    }
  }

  lemma {:induction false} SetAgrees(a: seq<Line>, b: seq<Line>, i: nat, l: Line, m: Line)
    requires SameLines(a, b) && i < |a| && SameLine(l, m)
    ensures SameLines(a[i := l], b[i := m])
  {}

  /** A fair update keeps the accounts the same. */
  lemma {:induction false} UpdateAgrees(env: Env, a: State, b: State, e: int, gap: int, stale: seq<bool>,
                                        i: nat, kind: Kind, name: string, time: int)
    requires Splits(env) && Apart(a, b, e, gap, stale) && Agree(a, b) && i < |stale|
    requires stale[i] ==> Fair(a.lines[i], kind, time, gap)
    ensures Agree(Update(env, a, i, kind, name, time), Update(env, b, i, kind, name, time + e))
  {
    var l, m := a.lines[i], b.lines[i];
    LineAgrees(l, m, e, gap, stale[i], kind, name, time);
    EntersAgree(env, a, b, e, i, kind, name, time);
    SetAgrees(a.lines, b.lines, i, LineAfter(l, kind, name, time), LineAfter(m, kind, name, time + e));
    UpdateIs(env, a, i, kind, name, time);
    UpdateIs(env, b, i, kind, name, time + e);
  }

  /** An unfair one makes them differ. */
  lemma {:induction false} UpdateSpoils(env: Env, a: State, b: State, e: int, gap: int, stale: seq<bool>,
                                        i: nat, kind: Kind, name: string, time: int)
    requires Apart(a, b, e, gap, stale) && Agree(a, b) && i < |stale| && stale[i]
    requires !Fair(a.lines[i], kind, time, gap)
    ensures Spoiled(Update(env, a, i, kind, name, time), Update(env, b, i, kind, name, time + e), gap,
                    stale[i := false])
  {
    UpdateIs(env, a, i, kind, name, time);
    UpdateIs(env, b, i, kind, name, time + e);
    assert SameLine(a.lines[i], b.lines[i]);
    var a1, b1 := Update(env, a, i, kind, name, time), Update(env, b, i, kind, name, time + e);
    if a1.bad == b1.bad { assert IsSpoiled(a1, b1, gap, stale[i := false], i); }
  }

  /** And different they stay. */
  lemma {:induction false} UpdateStaysSpoiled(env: Env, a: State, b: State, e: int, gap: int, stale: seq<bool>,
                                              i: nat, kind: Kind, name: string, time: int)
    requires Apart(a, b, e, gap, stale) && Spoiled(a, b, gap, stale) && i < |stale|
    ensures Spoiled(Update(env, a, i, kind, name, time), Update(env, b, i, kind, name, time + e), gap,
                    stale[i := false])
  {
    UpdateIs(env, a, i, kind, name, time);
    UpdateIs(env, b, i, kind, name, time + e);
    var a1, b1 := Update(env, a, i, kind, name, time), Update(env, b, i, kind, name, time + e);
    if a1.bad == b1.bad {
      var k :| 0 <= k < |stale| && IsSpoiled(a, b, gap, stale, k);
      assert IsSpoiled(a1, b1, gap, stale[i := false], k);
    }
  }

  lemma {:induction false} UpdateCompared(env: Env, a: State, b: State, e: int, gap: int, stale: seq<bool>, fair: bool,
                                          i: nat, kind: Kind, name: string, time: int)
    requires Splits(env) && Compared(a, b, e, gap, stale, fair) && i < |stale|
    ensures Compared(Update(env, a, i, kind, name, time), Update(env, b, i, kind, name, time + e), e, gap,
                     stale[i := false], fair && (stale[i] ==> Fair(a.lines[i], kind, time, gap)))
  {
    UpdateApart(env, a, b, e, gap, stale, i, kind, name, time);
    if !fair {
      UpdateStaysSpoiled(env, a, b, e, gap, stale, i, kind, name, time);
    } else if stale[i] && !Fair(a.lines[i], kind, time, gap) {
      UpdateSpoils(env, a, b, e, gap, stale, i, kind, name, time);
    } else {
      UpdateAgrees(env, a, b, e, gap, stale, i, kind, name, time);
    }
  }

  // ---- One record ----

  /** The record updates line i. */
  predicate Hits(lines: seq<Line>, rec: Rec, i: nat) {
    rec.line != "" && (rec.kind == BootTime || (OnLine(rec.kind) && Lookup(lines, rec.line) == i))
  }

  /** The record is fair to every stale line it updates. */
  predicate StepFair(lines: seq<Line>, stale: seq<bool>, rec: Rec, gap: int) {
    forall i :: 0 <= i < |lines| && i < |stale| && stale[i] && Hits(lines, rec, i) ==>
      Fair(lines[i], Effect(rec), rec.time, gap)
  }

  predicate AddsLine(lines: seq<Line>, rec: Rec) {
    rec.line != "" && OnLine(rec.kind) && Lookup(lines, rec.line) == |lines|
  }

  /** A line that is updated is stale no more, and a new one is not. */
  function NextStale(lines: seq<Line>, stale: seq<bool>, rec: Rec): seq<bool> {
    seq(|stale|, i requires 0 <= i < |stale| => stale[i] && !Hits(lines, rec, i)) +
    if AddsLine(lines, rec) then [false] else []
  }

  function ClearFrom(stale: seq<bool>, i: nat): (r: seq<bool>)
    ensures |r| == |stale|
  {
    seq(|stale|, j requires 0 <= j < |stale| => j < i && stale[j])
  }

  /** A logout at this time is fair to the lines from i on. */
  predicate BootFair(lines: seq<Line>, stale: seq<bool>, i: nat, time: int, gap: int) {
    forall j :: i <= j < |lines| && j < |stale| && stale[j] ==> Fair(lines[j], DeadProcess, time, gap)
  }

  lemma {:induction false} UpFromCompared(env: Env, a: State, b: State, e: int, gap: int, stale: seq<bool>, fair: bool,
                                          i: nat, time: int)
    requires Splits(env) && Compared(a, b, e, gap, stale, fair)
    ensures Compared(UpFrom(env, a, i, time), UpFrom(env, b, i, time + e), e, gap, ClearFrom(stale, i),
                     fair && BootFair(a.lines, stale, i, time, gap))
    decreases |a.lines| - i
  {
    if i < |a.lines| {
      UpdateCompared(env, a, b, e, gap, stale, fair, i, DeadProcess, "", time);
      UpdateIs(env, a, i, DeadProcess, "", time);
      var a1, b1 := Update(env, a, i, DeadProcess, "", time), Update(env, b, i, DeadProcess, "", time + e);
      var fair1 := fair && (stale[i] ==> Fair(a.lines[i], DeadProcess, time, gap));
      UpFromCompared(env, a1, b1, e, gap, stale[i := false], fair1, i + 1, time);
      assert ClearFrom(stale[i := false], i + 1) == ClearFrom(stale, i);
      BootFairNext(a.lines, stale, i, time, gap, a1.lines);
    } else {
      assert ClearFrom(stale, i) == stale;
    }
  }

  lemma {:induction false} BootFairNext(lines: seq<Line>, stale: seq<bool>, i: nat, time: int, gap: int,
                                        after: seq<Line>)
    requires i < |lines| == |stale| == |after| && forall j :: i < j < |lines| ==> after[j] == lines[j]
    ensures BootFair(lines, stale, i, time, gap) <==>
            (stale[i] ==> Fair(lines[i], DeadProcess, time, gap)) &&
                BootFair(after, stale[i := false], i + 1, time, gap)
  {
    forall j | i < j < |lines| ensures after[j] == lines[j] && stale[i := false][j] == stale[j] {}
  }

  lemma {:induction false} LookupSame(a: seq<Line>, b: seq<Line>, line: string)
    requires |a| == |b| && forall i :: 0 <= i < |a| ==> a[i].line == b[i].line
    ensures Lookup(a, line) == Lookup(b, line)
    decreases |a|
  {
    if a != [] { LookupSame(a[1..], b[1..], line); }
  }

  /** A new line, whose clock is at 0 in both runs. */
  lemma {:induction false} NewLineCompared(a: State, b: State, e: int, gap: int, stale: seq<bool>, fair: bool, l: Line)
    requires Compared(a, b, e, gap, stale, fair) && (e == 0 || e + gap == 0) && l.time == 0
    ensures Compared(a.(lines := a.lines + [l]), b.(lines := b.lines + [l]), e, gap, stale + [e != 0], fair)
  {
    var a1, b1, stale1 := a.(lines := a.lines + [l]), b.(lines := b.lines + [l]), stale + [e != 0];
    if !fair && a.bad == b.bad {
      var i :| 0 <= i < |stale| && IsSpoiled(a, b, gap, stale, i);
      assert IsSpoiled(a1, b1, gap, stale1, i);
    }
  }

  /** What a record for one line does to the stale lines. */
  lemma {:induction false} TouchStale(lines: seq<Line>, stale: seq<bool>, rec: Rec, gap: int)
    requires OnLine(rec.kind) && rec.line != "" && |stale| == |lines|
    ensures var i := Lookup(lines, rec.line);
      if i < |lines| then
        && NextStale(lines, stale, rec) == stale[i := false]
        && (StepFair(lines, stale, rec, gap) <==> (stale[i] ==> Fair(lines[i], rec.kind, rec.time, gap)))
      else NextStale(lines, stale, rec) == stale + [false] && StepFair(lines, stale, rec, gap)
  {
    var i := Lookup(lines, rec.line);
    if i < |lines| { assert Hits(lines, rec, i); }
  }

  /** A time that is not before the clock of a new line, moved or not. */
  predicate NotBefore(time: int, e: int) {
    e == 0 || (time >= 0 && time + e >= 0)
  }

  lemma {:induction false} TouchNew(env: Env, a: State, b: State, e: int, gap: int, stale: seq<bool>, fair: bool,
                                    l: Line, kind: Kind, name: string, time: int)
    requires Splits(env) && Compared(a, b, e, gap, stale, fair) && (e == 0 || e + gap == 0)
    requires l.time == 0 && l.name == "" && NotBefore(time, e)
    ensures |a.lines| == |b.lines| == |stale|
    ensures Compared(Update(env, a.(lines := a.lines + [l]), |a.lines|, kind, name, time),
                     Update(env, b.(lines := b.lines + [l]), |b.lines|, kind, name, time + e),
                     e, gap, stale + [false], fair)
  {
    var n, stale1 := |a.lines|, stale + [e != 0];
    var a1, b1 := a.(lines := a.lines + [l]), b.(lines := b.lines + [l]);
    NewLineCompared(a, b, e, gap, stale, fair, l);
    UpdateCompared(env, a1, b1, e, gap, stale1, fair, n, kind, name, time);
    assert stale1[n := false] == stale + [false];
  }

  lemma {:induction false} TouchOld(env: Env, st: State, rec: Rec, i: nat)
    requires i == Lookup(st.lines, rec.line) < |st.lines|
    ensures Touch(env, st, rec) == Update(env, st, i, rec.kind, rec.name, rec.time)
  {}

  lemma {:induction false} TouchAdded(env: Env, st: State, rec: Rec)
    requires Lookup(st.lines, rec.line) == |st.lines|
    ensures Touch(env, st, rec) ==
            Update(env, st.(lines := st.lines + [Line(rec.line, "", 0, 0, 0, 0, 0)]), |st.lines|,
                   rec.kind, rec.name, rec.time)
  {}

  lemma {:induction false} TouchOther(env: Env, a: State, b: State, e: int, gap: int, stale: seq<bool>, fair: bool,
                                      rec: Rec, next: seq<bool>)
    requires Splits(env) && Compared(a, b, e, gap, stale, fair) && (e == 0 || e + gap == 0)
    requires Lookup(a.lines, rec.line) == |a.lines| && NotBefore(rec.time, e) && next == stale + [false]
    ensures Compared(Touch(env, a, rec), Touch(env, b, ShiftRec(rec, e)), e, gap, next, fair)
  {
    LookupSame(a.lines, b.lines, rec.line);
    TouchAdded(env, a, rec);
    TouchAdded(env, b, ShiftRec(rec, e));
    TouchNew(env, a, b, e, gap, stale, fair, Line(rec.line, "", 0, 0, 0, 0, 0), rec.kind, rec.name, rec.time);
  }

  lemma {:induction false} TouchesAre(env: Env, a: State, b: State, e: int, gap: int, stale: seq<bool>, rec: Rec,
                                      i: nat)
    requires Apart(a, b, e, gap, stale) && i == Lookup(a.lines, rec.line) < |a.lines|
    ensures i < |b.lines|
    ensures Touch(env, a, rec) == Update(env, a, i, rec.kind, rec.name, rec.time)
    ensures Touch(env, b, ShiftRec(rec, e)) == Update(env, b, i, rec.kind, rec.name, rec.time + e)
  {
    LookupSame(a.lines, b.lines, rec.line);
    TouchOld(env, a, rec, i);
    TouchOld(env, b, ShiftRec(rec, e), i);
  }

  lemma {:induction false} TouchKnown(env: Env, a: State, b: State, e: int, gap: int, stale: seq<bool>, fair: bool,
                                      rec: Rec, i: nat, next: seq<bool>, fair1: bool, a1: State, b1: State)
    requires Splits(env) && Compared(a, b, e, gap, stale, fair) && i < |a.lines| && i < |b.lines|
    requires |stale| == |a.lines| && next == stale[i := false]
    requires fair1 == (fair && (stale[i] ==> Fair(a.lines[i], rec.kind, rec.time, gap)))
    requires a1 == Update(env, a, i, rec.kind, rec.name, rec.time)
    requires b1 == Update(env, b, i, rec.kind, rec.name, rec.time + e)
    ensures Compared(a1, b1, e, gap, next, fair1)
  {
    UpdateCompared(env, a, b, e, gap, stale, fair, i, rec.kind, rec.name, rec.time);
  }

  lemma {:induction false} TouchCompared(env: Env, a: State, b: State, e: int, gap: int, stale: seq<bool>, fair: bool,
                                         rec: Rec)
    requires Splits(env) && Compared(a, b, e, gap, stale, fair) && (e == 0 || e + gap == 0)
    requires OnLine(rec.kind) && rec.line != "" && NotBefore(rec.time, e)
    ensures Compared(Touch(env, a, rec), Touch(env, b, ShiftRec(rec, e)), e, gap, NextStale(a.lines, stale, rec),
                     fair && StepFair(a.lines, stale, rec, gap))
  {
    var i, next := Lookup(a.lines, rec.line), NextStale(a.lines, stale, rec);
    var fair1 := fair && StepFair(a.lines, stale, rec, gap);
    TouchStale(a.lines, stale, rec, gap);
    if i < |a.lines| {
      TouchesAre(env, a, b, e, gap, stale, rec, i);
      TouchKnown(env, a, b, e, gap, stale, fair, rec, i, next, fair1, Touch(env, a, rec),
                 Touch(env, b, ShiftRec(rec, e)));
    } else {
      TouchOther(env, a, b, e, gap, stale, fair, rec, next);
    }
  }

  lemma {:induction false} StepCompared(env: Env, a: State, b: State, e: int, gap: int, stale: seq<bool>, fair: bool,
                                        rec: Rec)
    requires Splits(env) && Compared(a, b, e, gap, stale, fair) && (e == 0 || e + gap == 0)
    requires rec.kind != OldTime && NotBefore(rec.time, e)
    ensures Compared(Step(env, a, rec), Step(env, b, ShiftRec(rec, e)), e, gap, NextStale(a.lines, stale, rec),
                     fair && StepFair(a.lines, stale, rec, gap))
  {
    if rec.line != "" && OnLine(rec.kind) {
      TouchCompared(env, a, b, e, gap, stale, fair, rec);
    } else if rec.line != "" && rec.kind == BootTime {
      UpFromCompared(env, a, b, e, gap, stale, fair, 0, rec.time);
      assert NextStale(a.lines, stale, rec) == ClearFrom(stale, 0);
    } else {
      assert NextStale(a.lines, stale, rec) == stale;
    }
  }

  // ---- Runs ----

  predicate AllFair(env: Env, st: State, stale: seq<bool>, recs: seq<Rec>, gap: int)
    decreases |recs|
  {
    recs == [] ||
    (&& StepFair(st.lines, stale, recs[0], gap)
     && AllFair(env, Step(env, st, recs[0]), NextStale(st.lines, stale, recs[0]), recs[1..], gap))
  }

  function StaleAfter(env: Env, st: State, stale: seq<bool>, recs: seq<Rec>): seq<bool>
    decreases |recs|
  {
    if recs == [] then stale
    else StaleAfter(env, Step(env, st, recs[0]), NextStale(st.lines, stale, recs[0]), recs[1..])
  }

  predicate NoChange(recs: seq<Rec>) {
    forall i :: 0 <= i < |recs| ==> recs[i].kind != OldTime
  }

  predicate NotNegative(recs: seq<Rec>, e: int) {
    forall i :: 0 <= i < |recs| ==> NotBefore(recs[i].time, e)
  }

  /** The accounts agree in the end exactly if every record is fair to the stale lines it meets. */
  lemma {:induction false} RunCompared(env: Env, a: State, b: State, e: int, gap: int, stale: seq<bool>, fair: bool,
                                       recs: seq<Rec>)
    requires Splits(env) && Compared(a, b, e, gap, stale, fair) && (e == 0 || e + gap == 0)
    requires NoChange(recs) && NotNegative(recs, e)
    ensures Compared(Run(env, a, recs), Run(env, b, ShiftRecs(recs, e)), e, gap, StaleAfter(env, a, stale, recs),
                     fair && AllFair(env, a, stale, recs, gap))
    decreases |recs|
  {
    if recs != [] {
      assert ShiftRecs(recs, e)[1..] == ShiftRecs(recs[1..], e);
      StepCompared(env, a, b, e, gap, stale, fair, recs[0]);
      RunCompared(env, Step(env, a, recs[0]), Step(env, b, ShiftRec(recs[0], e)), e, gap,
                  NextStale(a.lines, stale, recs[0]), fair && StepFair(a.lines, stale, recs[0], gap), recs[1..]);
    }
  }

  // ---- One line in a run ----

  predicate DistinctLines(lines: seq<Line>) {
    forall i, j :: 0 <= i < j < |lines| ==> lines[i].line != lines[j].line
  }

  lemma {:induction false} HitsIsTouches(lines: seq<Line>, rec: Rec, i: nat)
    requires DistinctLines(lines) && i < |lines|
    ensures Hits(lines, rec, i) <==> Touches(rec, lines[i].line)
  {
    var k := Lookup(lines, rec.line);
    if rec.line == lines[i].line { assert k == i; }
  }

  function NameIn(rec: Rec): string {
    if rec.kind == BootTime then "" else rec.name
  }

  lemma {:induction false} UpFromLine(env: Env, st: State, i: nat, time: int, j: nat)
    requires j < |st.lines|
    ensures var r := UpFrom(env, st, i, time);
      && |r.lines| == |st.lines| && r.datetime == st.datetime
      && r.lines[j] == if i <= j then LineAfter(st.lines[j], DeadProcess, "", time) else st.lines[j]
    decreases |st.lines| - i
  {
    if i < |st.lines| {
      UpdateIs(env, st, i, DeadProcess, "", time);
      UpFromLine(env, Update(env, st, i, DeadProcess, "", time), i + 1, time, j);
    }
  }

  lemma {:induction false} UpFromSize(env: Env, st: State, i: nat, time: int)
    ensures |UpFrom(env, st, i, time).lines| == |st.lines| && UpFrom(env, st, i, time).datetime == st.datetime
    decreases |st.lines| - i
  {
    if i < |st.lines| { UpFromSize(env, Update(env, st, i, DeadProcess, "", time), i + 1, time); }
  }

  /** A record changes only the lines it hits, and adds at most the line it names. */
  lemma {:induction false} StepLines(env: Env, st: State, rec: Rec)
    requires st.datetime == 0 && rec.kind != OldTime
    ensures var r := Step(env, st, rec);
      && r.datetime == 0
      && |r.lines| == |st.lines| + (if AddsLine(st.lines, rec) then 1 else 0)
      && (AddsLine(st.lines, rec) ==> r.lines[|st.lines|].line == rec.line)
      && forall i :: 0 <= i < |st.lines| ==>
           r.lines[i] == if Hits(st.lines, rec, i) then LineAfter(st.lines[i], Effect(rec), NameIn(rec), rec.time)
                         else st.lines[i]
  {
    if rec.line != "" && rec.kind == BootTime {
      UpFromSize(env, st, 0, rec.time);
      forall i | 0 <= i < |st.lines|
        ensures Step(env, st, rec).lines[i] == LineAfter(st.lines[i], DeadProcess, "", rec.time)
      {
        UpFromLine(env, st, 0, rec.time, i);
      }
    } else if rec.line != "" && OnLine(rec.kind) {
      var k, added := Lookup(st.lines, rec.line), AddLine(st, rec.line);
      UpdateIs(env, added, k, rec.kind, rec.name, rec.time);
      assert added.lines[..|st.lines|] == st.lines;
    }
  }

  lemma {:induction false} StepDistinct(env: Env, st: State, rec: Rec)
    requires DistinctLines(st.lines) && st.datetime == 0 && rec.kind != OldTime
    ensures DistinctLines(Step(env, st, rec).lines)
  {
    StepLines(env, st, rec);
    var r := Step(env, st, rec);
    forall i | 0 <= i < |st.lines| ensures r.lines[i].line == st.lines[i].line {}
  }

  /** Fairness, line by line: only the first record that touches a stale line matters. */
  lemma {:induction false} FairExactly(env: Env, st: State, stale: seq<bool>, recs: seq<Rec>, gap: int)
    requires DistinctLines(st.lines) && |stale| == |st.lines| && st.datetime == 0 && NoChange(recs)
    ensures AllFair(env, st, stale, recs, gap) <==>
            forall i :: 0 <= i < |stale| && stale[i] ==> FirstFair(st.lines[i], recs, gap)
    decreases |recs|
  {
    if recs != [] {
      var rec, rest := recs[0], recs[1..];
      var st1, stale1 := Step(env, st, rec), NextStale(st.lines, stale, rec);
      StepLines(env, st, rec);
      StepDistinct(env, st, rec);
      FairExactly(env, st1, stale1, rest, gap);
      forall i | 0 <= i < |stale| && stale[i]
        ensures FirstFair(st.lines[i], recs, gap) <==>
                if Hits(st.lines, rec, i) then Fair(st.lines[i], Effect(rec), rec.time, gap)
                else FirstFair(st1.lines[i], rest, gap)
        ensures stale1[i] <==> !Hits(st.lines, rec, i)
      {
        HitsIsTouches(st.lines, rec, i);
      }
      FairSplits(st.lines, stale, recs, gap, st1.lines, stale1);
    }
  }

  lemma {:induction false} FairSplits(lines: seq<Line>, stale: seq<bool>, recs: seq<Rec>, gap: int,
                                      lines1: seq<Line>, stale1: seq<bool>)
    requires recs != [] && |stale| == |lines| <= |lines1| == |stale1|
    requires forall i :: |stale| <= i < |stale1| ==> !stale1[i]
    requires forall i :: 0 <= i < |stale| ==> (stale1[i] <==> stale[i] && !Hits(lines, recs[0], i))
    requires forall i :: 0 <= i < |stale| && stale[i] ==>
      (FirstFair(lines[i], recs, gap) <==>
       if Hits(lines, recs[0], i) then Fair(lines[i], Effect(recs[0]), recs[0].time, gap)
       else FirstFair(lines1[i], recs[1..], gap))
    ensures (forall i :: 0 <= i < |stale| && stale[i] ==> FirstFair(lines[i], recs, gap)) <==>
            StepFair(lines, stale, recs[0], gap) &&
            forall i :: 0 <= i < |stale1| && stale1[i] ==> FirstFair(lines1[i], recs[1..], gap)
  {}

  /** The lines still stale after a run are those that no record touched. */
  lemma {:induction false} StaleExactly(env: Env, st: State, stale: seq<bool>, recs: seq<Rec>)
    requires DistinctLines(st.lines) && |stale| == |st.lines| && st.datetime == 0 && NoChange(recs)
    ensures var r, left := Run(env, st, recs), StaleAfter(env, st, stale, recs);
      && DistinctLines(r.lines) && r.datetime == 0 && |left| == |r.lines| >= |st.lines|
      && (forall i :: 0 <= i < |st.lines| ==> r.lines[i].line == st.lines[i].line)
      && (forall i :: |st.lines| <= i < |r.lines| ==> IsTouched(recs, r.lines[i].line) && !left[i])
      && (forall i :: 0 <= i < |st.lines| ==> (left[i] <==> stale[i] && !IsTouched(recs, r.lines[i].line)))
    decreases |recs|
  {
    if recs != [] {
      var rec, rest := recs[0], recs[1..];
      var st1, stale1 := Step(env, st, rec), NextStale(st.lines, stale, rec);
      StepLines(env, st, rec);
      StepDistinct(env, st, rec);
      StaleExactly(env, st1, stale1, rest);
      var r := Run(env, st, recs);
      forall i | 0 <= i < |r.lines| ensures IsTouched(recs, r.lines[i].line) <==>
                                            Touches(rec, r.lines[i].line) || IsTouched(rest, r.lines[i].line) {}
      forall i | 0 <= i < |st.lines| ensures Hits(st.lines, rec, i) <==> Touches(rec, r.lines[i].line) {
        HitsIsTouches(st.lines, rec, i);
      }
    }
  }

  /** A line that no record touches stays as it is. */
  lemma {:induction false} Untouched(env: Env, st: State, recs: seq<Rec>, i: nat)
    requires DistinctLines(st.lines) && st.datetime == 0 && NoChange(recs) && i < |st.lines|
    requires !IsTouched(recs, st.lines[i].line)
    ensures var r := Run(env, st, recs);
      DistinctLines(r.lines) && r.datetime == 0 && i < |r.lines| && r.lines[i] == st.lines[i]
    decreases |recs|
  {
    if recs != [] {
      StepLines(env, st, recs[0]);
      StepDistinct(env, st, recs[0]);
      HitsIsTouches(st.lines, recs[0], i);
      Untouched(env, Step(env, st, recs[0]), recs[1..], i);
    }
  }
}
