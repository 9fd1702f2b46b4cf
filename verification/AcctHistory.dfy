/**
 * Connect-time accounts as a matter of the log alone.  For each line one looks back from a
 * record to the one before it, to who had come and not gone, and to how the clock was moved
 * in between; the tables of acctcon are proved to hold exactly that.
 */
module AcctHistory {
  import opened Utmpx
  import opened AcctConSpec
  import opened AcctConLaws
  import opened AcctSkew
  import opened Options

  // ---- Looking back in the log ----

  predicate Names(rec: Rec, line: string) {
    rec.line == line && rec.kind in {InitProcess, LoginProcess, UserProcess, DeadProcess}
  }

  predicate IsKnown(recs: seq<Rec>, line: string, k: nat)
    requires k <= |recs|
  {
    exists m :: 0 <= m < k && Names(recs[m], line)
  }

  /** Record k is for this line, or it is a boot and the line is known. */
  predicate Concerns(recs: seq<Rec>, line: string, k: nat)
    requires k < |recs|
  {
    Names(recs[k], line) || (recs[k].kind == BootTime && recs[k].line != "" && IsKnown(recs, line, k))
  }

  /** The last record before k that concerns the line, or -1. */
  function LastAbout(recs: seq<Rec>, line: string, k: nat): (p: int)
    requires k <= |recs|
    ensures -1 <= p < k && (p >= 0 ==> Concerns(recs, line, p))
    ensures forall m :: p < m < k ==> !Concerns(recs, line, m)
  {
    if k == 0 then -1 else if Concerns(recs, line, k - 1) then k - 1 else LastAbout(recs, line, k - 1)
  }

  /** The old time of a change that is under way at record k, or 0. */
  function Pending(recs: seq<Rec>, k: nat): int
    requires k <= |recs|
  {
    if k == 0 then 0
    else if recs[k - 1].line != "" && recs[k - 1].kind == OldTime then recs[k - 1].time
    else if recs[k - 1].line != "" && recs[k - 1].kind == NewTime then 0
    else Pending(recs, k - 1)
  }

  predicate SetsClock(recs: seq<Rec>, k: nat)
    requires k < |recs|
  {
    recs[k].line != "" && recs[k].kind == NewTime && Pending(recs, k) != 0
  }

  /** By how much the clock was set forward from record p up to record k. */
  function SetBy(recs: seq<Rec>, p: nat, k: nat): int
    requires p <= k <= |recs|
    decreases k
  {
    if p == k then 0
    else SetBy(recs, p, k - 1) + (if SetsClock(recs, k - 1) then recs[k - 1].time - Pending(recs, k - 1) else 0)
  }

  /** The time of the record before, on the clock that record k is on. */
  function ClockAt(recs: seq<Rec>, line: string, k: nat): int
    requires k <= |recs|
  {
    var p := LastAbout(recs, line, k);
    if p < 0 then 0 else recs[p].time + SetBy(recs, p, k)
  }

  /** A record that is not earlier than the one before it. */
  predicate InOrder(recs: seq<Rec>, line: string, k: nat)
    requires k < |recs|
  {
    Concerns(recs, line, k) && ClockAt(recs, line, k) <= recs[k].time
  }

  predicate Comes(recs: seq<Rec>, line: string, k: nat)
    requires k < |recs|
  {
    InOrder(recs, line, k) && recs[k].kind == UserProcess
  }

  predicate Goes(recs: seq<Rec>, line: string, k: nat)
    requires k < |recs|
  {
    InOrder(recs, line, k) && recs[k].kind in {DeadProcess, BootTime}
  }

  /** Who is on the line before record k: the last to come, unless the line was left since. */
  function Who(recs: seq<Rec>, line: string, k: nat): string
    requires k <= |recs|
  {
    if k == 0 then ""
    else if Comes(recs, line, k - 1) then recs[k - 1].name
    else if Goes(recs, line, k - 1) then ""
    else Who(recs, line, k - 1)
  }

  /** Record k ends a session. */
  predicate Ends(recs: seq<Rec>, line: string, k: nat)
    requires k < |recs|
  {
    (Comes(recs, line, k) || Goes(recs, line, k)) && Who(recs, line, k) != ""
  }

  function Length(recs: seq<Rec>, line: string, k: nat): int
    requires k < |recs|
  {
    recs[k].time - ClockAt(recs, line, k)
  }

  function One(b: bool): nat {
    if b then 1 else 0
  }

  /** Logins; logins on a free line; logouts and boots; records too early; time used. */
  function Logins(recs: seq<Rec>, line: string, k: nat): nat
    requires k <= |recs|
  {
    if k == 0 then 0 else Logins(recs, line, k - 1) + One(Comes(recs, line, k - 1))
  }

  function Arrivals(recs: seq<Rec>, line: string, k: nat): nat
    requires k <= |recs|
  {
    if k == 0 then 0
    else Arrivals(recs, line, k - 1) + One(Comes(recs, line, k - 1) && Who(recs, line, k - 1) == "")
  }

  function Logouts(recs: seq<Rec>, line: string, k: nat): nat
    requires k <= |recs|
  {
    if k == 0 then 0 else Logouts(recs, line, k - 1) + One(Goes(recs, line, k - 1))
  }

  function Complaints(recs: seq<Rec>, line: string, k: nat): nat
    requires k <= |recs|
  {
    if k == 0 then 0
    else Complaints(recs, line, k - 1) + One(Concerns(recs, line, k - 1) && !InOrder(recs, line, k - 1))
  }

  function Used(recs: seq<Rec>, line: string, k: nat): int
    requires k <= |recs|
  {
    if k == 0 then 0
    else Used(recs, line, k - 1) + (if Ends(recs, line, k - 1) then Length(recs, line, k - 1) else 0)
  }

  /** The sessions on a line, the i-th of the table. */
  function Stays(env: Env, recs: seq<Rec>, line: string, i: nat, k: nat): seq<Session>
    requires k <= |recs|
  {
    if k == 0 then []
    else Stays(env, recs, line, i, k - 1) +
         (if Ends(recs, line, k - 1) then [Stay(env, recs, line, i, k - 1)] else [])
  }

  function Stay(env: Env, recs: seq<Rec>, line: string, i: nat, k: nat): Session
    requires k < |recs|
  {
    var who := Who(recs, line, k);
    Session(i, who, env.uidOf(who), ClockAt(recs, line, k), Length(recs, line, k), recs[k].kind == UserProcess)
  }

  function DateChanges(recs: seq<Rec>, k: nat): nat
    requires k <= |recs|
  {
    if k == 0 then 0 else DateChanges(recs, k - 1) + One(SetsClock(recs, k - 1))
  }

  /** The line as the table holds it before record k. */
  function LineOf(recs: seq<Rec>, line: string, k: nat): Line
    requires k <= |recs|
  {
    Line(line, Who(recs, line, k), ClockAt(recs, line, k), Logins(recs, line, k), Arrivals(recs, line, k),
         Logouts(recs, line, k), Used(recs, line, k))
  }

  // ---- One record and one line ----

  lemma {:induction false} KnownNext(recs: seq<Rec>, line: string, k: nat)
    requires k < |recs|
    ensures IsKnown(recs, line, k + 1) <==> IsKnown(recs, line, k) || Names(recs[k], line)
  {
    if Names(recs[k], line) { assert IsKnown(recs, line, k + 1); }
  }

  /** A known line was concerned before. */
  lemma {:induction false} KnownAbout(recs: seq<Rec>, line: string, k: nat)
    requires k <= |recs|
    ensures IsKnown(recs, line, k) <==> LastAbout(recs, line, k) >= 0
    decreases k
  {
    if k > 0 {
      KnownAbout(recs, line, k - 1);
      KnownNext(recs, line, k - 1);
    }
  }

  lemma {:induction false} LineMet(recs: seq<Rec>, line: string, k: nat)
    requires k < |recs| && Concerns(recs, line, k)
    ensures LineOf(recs, line, k + 1) ==
            LineAfter(LineOf(recs, line, k), Effect(recs[k]), NameIn(recs[k]), recs[k].time)
  {
    assert SetBy(recs, k, k) == 0 && SetBy(recs, k, k + 1) == 0;
    assert ClockAt(recs, line, k + 1) == recs[k].time;
  }

  lemma {:induction false} LinePassed(recs: seq<Rec>, line: string, k: nat)
    requires k < |recs| && !Concerns(recs, line, k) && IsKnown(recs, line, k)
    ensures LineOf(recs, line, k + 1) ==
            var l := LineOf(recs, line, k);
            l.(time := l.time + if SetsClock(recs, k) then recs[k].time - Pending(recs, k) else 0)
  {
    KnownAbout(recs, line, k);
  }

  lemma {:induction false} LineUnknown(recs: seq<Rec>, line: string, k: nat)
    requires k <= |recs| && !IsKnown(recs, line, k)
    ensures LineOf(recs, line, k) == Line(line, "", 0, 0, 0, 0, 0) && Complaints(recs, line, k) == 0
    ensures forall env, i :: Stays(env, recs, line, i, k) == []
    decreases k
  {
    KnownAbout(recs, line, k);
    if k > 0 {
      KnownNext(recs, line, k - 1);
      LineUnknown(recs, line, k - 1);
    }
  }

  // ---- One record and the tables ----

  /** The sessions on the i-th line. */
  function On(sessions: seq<Session>, i: nat): seq<Session> {
    if sessions == [] then []
    else
      var s := sessions[|sessions| - 1];
      On(sessions[..|sessions| - 1], i) + (if s.line == i then [s] else [])
  }

  lemma {:induction false} OnAdd(sessions: seq<Session>, s: Session, i: nat)
    ensures On(sessions + [s], i) == On(sessions, i) + (if s.line == i then [s] else [])
  {
    assert (sessions + [s])[..|sessions|] == sessions;
  }

  function Ended(env: Env, l: Line, i: nat, kind: Kind, time: int): seq<Session> {
    if l.time <= time && EndsSession(l, kind) then
      [Session(i, l.name, env.uidOf(l.name), l.time, time - l.time, kind == UserProcess)]
    else []
  }

  lemma {:induction false} UpdateOn(env: Env, st: State, i: nat, kind: Kind, name: string, time: int, j: nat)
    requires i < |st.lines|
    ensures On(Update(env, st, i, kind, name, time).sessions, j) ==
            On(st.sessions, j) + (if j == i then Ended(env, st.lines[i], i, kind, time) else [])
  {
    UpdateEnters(env, st, i, kind, name, time);
    var l := st.lines[i];
    if Ended(env, l, i, kind, time) != [] { OnAdd(st.sessions, Ended(env, l, i, kind, time)[0], j); }
  }

  lemma {:induction false} UpFromOn(env: Env, st: State, i: nat, time: int, j: nat)
    requires j < |st.lines|
    ensures On(UpFrom(env, st, i, time).sessions, j) ==
            On(st.sessions, j) + (if i <= j then Ended(env, st.lines[j], j, DeadProcess, time) else [])
    decreases |st.lines| - i
  {
    if i < |st.lines| {
      UpdateOn(env, st, i, DeadProcess, "", time, j);
      UpdateIs(env, st, i, DeadProcess, "", time);
      UpFromOn(env, Update(env, st, i, DeadProcess, "", time), i + 1, time, j);
    }
  }

  /** How many of the lines from i on have a clock after this time. */
  function LateLines(lines: seq<Line>, i: nat, time: int): nat
    decreases |lines| - i
  {
    if i >= |lines| then 0 else One(lines[i].time > time) + LateLines(lines, i + 1, time)
  }

  lemma {:induction false} LateSame(a: seq<Line>, b: seq<Line>, i: nat, time: int)
    requires |a| == |b| && forall j :: i <= j < |a| ==> a[j] == b[j]
    ensures LateLines(a, i, time) == LateLines(b, i, time)
    decreases |a| - i
  {
    if i < |a| { LateSame(a, b, i + 1, time); }
  }

  lemma {:induction false} UpFromBad(env: Env, st: State, i: nat, time: int)
    ensures UpFrom(env, st, i, time).bad == st.bad + LateLines(st.lines, i, time)
    decreases |st.lines| - i
  {
    if i < |st.lines| {
      var st1 := Update(env, st, i, DeadProcess, "", time);
      UpdateIs(env, st, i, DeadProcess, "", time);
      LateSame(st.lines, st1.lines, i + 1, time);
      UpFromBad(env, st1, i + 1, time);
    }
  }

  // ---- The tables hold what the log says ----

  ghost predicate LineKept(env: Env, recs: seq<Rec>, k: nat, st: State, i: nat)
    requires k <= |recs| && i < |st.lines|
  {
    var line := st.lines[i].line;
    && line != "" && IsKnown(recs, line, k)
    && st.lines[i] == LineOf(recs, line, k) && On(st.sessions, i) == Stays(env, recs, line, i, k)
  }

  /** Every line that a record names is in the table, once. */
  ghost predicate AllFound(recs: seq<Rec>, k: nat, lines: seq<Line>)
    requires k <= |recs|
  {
    && DistinctLines(lines)
    && forall m, line :: 0 <= m < k && Names(recs[m], line) && line != "" ==> Lookup(lines, line) < |lines|
  }

  ghost predicate NoneBeyond(st: State) {
    forall j :: j >= |st.lines| ==> On(st.sessions, j) == []
  }

  /** Records that were too early, over all lines from i on. */
  function AllComplaints(recs: seq<Rec>, lines: seq<Line>, i: nat, k: nat): nat
    requires k <= |recs|
    decreases |lines| - i
  {
    if i >= |lines| then 0 else Complaints(recs, lines[i].line, k) + AllComplaints(recs, lines, i + 1, k)
  }

  ghost predicate Kept(env: Env, recs: seq<Rec>, k: nat, st: State)
    requires k <= |recs|
  {
    && AllFound(recs, k, st.lines) && NoneBeyond(st)
    && (forall i :: 0 <= i < |st.lines| ==> LineKept(env, recs, k, st, i))
    && st.datetime == Pending(recs, k) && st.ndates == DateChanges(recs, k)
    && st.bad == AllComplaints(recs, st.lines, 0, k)
  }

  lemma {:induction false} MetKept(env: Env, recs: seq<Rec>, k: nat, st: State, i: nat, r: State)
    requires k < |recs| && i < |st.lines| && LineKept(env, recs, k, st, i)
    requires Concerns(recs, st.lines[i].line, k) && i < |r.lines|
    requires r.lines[i] == LineAfter(st.lines[i], Effect(recs[k]), NameIn(recs[k]), recs[k].time)
    requires On(r.sessions, i) == On(st.sessions, i) + Ended(env, st.lines[i], i, Effect(recs[k]), recs[k].time)
    ensures LineKept(env, recs, k + 1, r, i)
  {
    var line := st.lines[i].line;
    LineMet(recs, line, k);
    KnownNext(recs, line, k);
    assert Ended(env, st.lines[i], i, Effect(recs[k]), recs[k].time) ==
           if Ends(recs, line, k) then [Stay(env, recs, line, i, k)] else [];
  }

  lemma {:induction false} PassedKept(env: Env, recs: seq<Rec>, k: nat, st: State, i: nat, r: State)
    requires k < |recs| && i < |st.lines| && LineKept(env, recs, k, st, i)
    requires !Concerns(recs, st.lines[i].line, k) && i < |r.lines|
    requires var l := st.lines[i];
      r.lines[i] == l.(time := l.time + if SetsClock(recs, k) then recs[k].time - Pending(recs, k) else 0)
    requires On(r.sessions, i) == On(st.sessions, i)
    ensures LineKept(env, recs, k + 1, r, i)
  {
    var line := st.lines[i].line;
    LinePassed(recs, line, k);
    KnownNext(recs, line, k);
  }

  lemma {:induction false} BootKept(env: Env, recs: seq<Rec>, k: nat, st: State, i: nat)
    requires k < |recs| && i < |st.lines| && LineKept(env, recs, k, st, i)
    requires recs[k].kind == BootTime && recs[k].line != ""
    ensures i < |UpFrom(env, st, 0, recs[k].time).lines|
    ensures LineKept(env, recs, k + 1, UpFrom(env, st, 0, recs[k].time), i)
  {
    UpFromLine(env, st, 0, recs[k].time, i);
    UpFromOn(env, st, 0, recs[k].time, i);
    MetKept(env, recs, k, st, i, UpFrom(env, st, 0, recs[k].time));
  }

  lemma {:induction false} TouchKept(env: Env, recs: seq<Rec>, k: nat, st: State, i: nat)
    requires k < |recs| && i < |st.lines| && LineKept(env, recs, k, st, i) && DistinctLines(st.lines)
    requires Names(recs[k], recs[k].line) && recs[k].line != ""
    ensures i < |Touch(env, st, recs[k]).lines| && LineKept(env, recs, k + 1, Touch(env, st, recs[k]), i)
  {
    var rec, added := recs[k], AddLine(st, recs[k].line);
    var j, r := Lookup(st.lines, rec.line), Touch(env, st, rec);
    UpdateIs(env, added, j, rec.kind, rec.name, rec.time);
    UpdateOn(env, added, j, rec.kind, rec.name, rec.time, i);
    assert added.lines[i] == st.lines[i];
    if st.lines[i].line == rec.line {
      assert i == j;
      MetKept(env, recs, k, st, i, r);
    } else {
      PassedKept(env, recs, k, st, i, r);
    }
  }

  /** A line that is named for the first time. */
  lemma {:induction false} NewKept(env: Env, recs: seq<Rec>, k: nat, st: State)
    requires k < |recs| && AllFound(recs, k, st.lines) && NoneBeyond(st)
    requires Names(recs[k], recs[k].line) && recs[k].line != "" && Lookup(st.lines, recs[k].line) == |st.lines|
    ensures var r := Touch(env, st, recs[k]);
      |r.lines| == |st.lines| + 1 && LineKept(env, recs, k + 1, r, |st.lines|)
  {
    var rec, n, added := recs[k], |st.lines|, AddLine(st, recs[k].line);
    assert !IsKnown(recs, rec.line, k);
    LineUnknown(recs, rec.line, k);
    LineMet(recs, rec.line, k);
    KnownNext(recs, rec.line, k);
    UpdateIs(env, added, n, rec.kind, rec.name, rec.time);
    UpdateOn(env, added, n, rec.kind, rec.name, rec.time, n);
    assert Ended(env, added.lines[n], n, rec.kind, rec.time) == [];
    assert !Ends(recs, rec.line, k);
  }

  lemma {:induction false} LinesKept(env: Env, recs: seq<Rec>, k: nat, st: State, i: nat)
    requires k < |recs| && Kept(env, recs, k, st) && i < |st.lines|
    ensures var r := Step(env, st, recs[k]); i < |r.lines| && LineKept(env, recs, k + 1, r, i)
  {
    var rec, r := recs[k], Step(env, st, recs[k]);
    assert LineKept(env, recs, k, st, i);
    if rec.line != "" && rec.kind == BootTime {
      BootKept(env, recs, k, st, i);
    } else if rec.line != "" && Names(rec, rec.line) {
      TouchKept(env, recs, k, st, i);
    } else {
      PassedKept(env, recs, k, st, i, r);
    }
  }

  // ---- Lines found, clock and complaints ----

  lemma {:induction false} LookupAdd(lines: seq<Line>, l: Line, line: string)
    ensures Lookup(lines + [l], line) == if Lookup(lines, line) < |lines| then Lookup(lines, line)
                                         else if l.line == line then |lines| else |lines| + 1
    decreases |lines|
  {
    if lines == [] {
      assert lines + [l] == [l] && [l][1..] == [];
    } else {
      assert (lines + [l])[1..] == lines[1..] + [l];
      LookupAdd(lines[1..], l, line);
    }
  }

  predicate SameNames(a: seq<Line>, b: seq<Line>) {
    |a| == |b| && forall i :: 0 <= i < |a| ==> a[i].line == b[i].line
  }

  lemma {:induction false} UpFromNames(env: Env, st: State, time: int)
    ensures SameNames(st.lines, UpFrom(env, st, 0, time).lines)
  {
    var r := UpFrom(env, st, 0, time);
    UpFromSize(env, st, 0, time);
    forall i | 0 <= i < |st.lines| ensures r.lines[i].line == st.lines[i].line { UpFromLine(env, st, 0, time, i); }
  }

  /** A step keeps the names of lines in their places, or adds the one it names. */
  lemma {:induction false} NamesKept(env: Env, st: State, rec: Rec)
    ensures var r, adds := Step(env, st, rec), AddsLine(st.lines, rec);
      SameNames(r.lines, if adds then st.lines + [Line(rec.line, "", 0, 0, 0, 0, 0)] else st.lines)
  {
    if rec.line != "" && rec.kind == BootTime {
      UpFromNames(env, st, rec.time);
    } else if rec.line != "" && OnLine(rec.kind) {
      UpdateIs(env, AddLine(st, rec.line), Lookup(st.lines, rec.line), rec.kind, rec.name, rec.time);
    }
  }

  lemma {:induction false} FoundKept(env: Env, recs: seq<Rec>, k: nat, st: State)
    requires k < |recs| && AllFound(recs, k, st.lines)
    ensures AllFound(recs, k + 1, Step(env, st, recs[k]).lines)
  {
    var rec, lines := recs[k], Step(env, st, recs[k]).lines;
    var l := Line(rec.line, "", 0, 0, 0, 0, 0);
    var names := if AddsLine(st.lines, rec) then st.lines + [l] else st.lines;
    NamesKept(env, st, rec);
    forall m, line | 0 <= m < k + 1 && Names(recs[m], line) && line != "" ensures Lookup(lines, line) < |lines| {
      LookupSame(names, lines, line);
      LookupAdd(st.lines, l, line);
      assert m < k ==> Lookup(st.lines, line) < |st.lines|;
    }
  }

  lemma {:induction false} BeyondKept(env: Env, st: State, rec: Rec)
    requires NoneBeyond(st)
    ensures NoneBeyond(Step(env, st, rec))
  {
    if rec.line != "" && rec.kind == BootTime {
      UpFromSize(env, st, 0, rec.time);
      forall j | j >= |st.lines| ensures On(UpFrom(env, st, 0, rec.time).sessions, j) == [] {
        UpFromBeyond(env, st, 0, rec.time, j);
      }
    } else if rec.line != "" && OnLine(rec.kind) {
      TouchBeyond(env, st, rec);
    }
  }

  lemma {:induction false} TouchBeyond(env: Env, st: State, rec: Rec)
    requires NoneBeyond(st)
    ensures NoneBeyond(Touch(env, st, rec))
  {
    var r, added := Touch(env, st, rec), AddLine(st, rec.line);
    forall j | j >= |r.lines| ensures On(r.sessions, j) == [] {
      UpdateOn(env, added, Lookup(st.lines, rec.line), rec.kind, rec.name, rec.time, j);
      assert On(added.sessions, j) == [];
    }
  }

  lemma {:induction false} UpFromBeyond(env: Env, st: State, i: nat, time: int, j: nat)
    requires j >= |st.lines|
    ensures On(UpFrom(env, st, i, time).sessions, j) == On(st.sessions, j)
    decreases |st.lines| - i
  {
    if i < |st.lines| {
      UpdateOn(env, st, i, DeadProcess, "", time, j);
      UpFromBeyond(env, Update(env, st, i, DeadProcess, "", time), i + 1, time, j);
    }
  }

  lemma {:induction false} ComplaintsSame(recs: seq<Rec>, a: seq<Line>, b: seq<Line>, i: nat, k: nat)
    requires k <= |recs| && SameNames(a, b)
    ensures AllComplaints(recs, a, i, k) == AllComplaints(recs, b, i, k)
    decreases |a| - i
  {
    if i < |a| { ComplaintsSame(recs, a, b, i + 1, k); }
  }

  lemma {:induction false} ComplaintsAdd(recs: seq<Rec>, lines: seq<Line>, l: Line, i: nat, k: nat)
    requires k <= |recs| && i <= |lines|
    ensures AllComplaints(recs, lines + [l], i, k) == AllComplaints(recs, lines, i, k) + Complaints(recs, l.line, k)
    decreases |lines| - i
  {
    if i < |lines| { ComplaintsAdd(recs, lines, l, i + 1, k); }
  }

  /** A boot is a complaint for every line whose clock is after it. */
  lemma {:induction false} BootComplaints(recs: seq<Rec>, lines: seq<Line>, i: nat, k: nat)
    requires k < |recs| && recs[k].kind == BootTime && recs[k].line != ""
    requires forall j :: 0 <= j < |lines| ==>
               IsKnown(recs, lines[j].line, k) && lines[j] == LineOf(recs, lines[j].line, k)
    ensures AllComplaints(recs, lines, i, k + 1) ==
            AllComplaints(recs, lines, i, k) + LateLines(lines, i, recs[k].time)
    decreases |lines| - i
  {
    if i < |lines| { BootComplaints(recs, lines, i + 1, k); }
  }

  /** Any other record is one for at most the line it names. */
  lemma {:induction false} OneComplaint(recs: seq<Rec>, lines: seq<Line>, i: nat, k: nat, j: nat)
    requires k < |recs| && recs[k].kind != BootTime && j <= |lines|
    requires forall m :: 0 <= m < |lines| ==> (m == j <==> Names(recs[k], lines[m].line))
    ensures AllComplaints(recs, lines, i, k + 1) == AllComplaints(recs, lines, i, k) +
            One(i <= j < |lines| && ClockAt(recs, lines[j].line, k) > recs[k].time)
    decreases |lines| - i
  {
    if i < |lines| { OneComplaint(recs, lines, i + 1, k, j); }
  }

  lemma {:induction false} TouchComplaint(env: Env, recs: seq<Rec>, k: nat, st: State, j: nat)
    requires k < |recs| && Names(recs[k], recs[k].line) && recs[k].line != "" && AllFound(recs, k, st.lines)
    requires st.bad == AllComplaints(recs, st.lines, 0, k) && j == Lookup(st.lines, recs[k].line)
    requires j < |st.lines| ==> st.lines[j].time == ClockAt(recs, st.lines[j].line, k)
    ensures var r := Touch(env, st, recs[k]); r.bad == AllComplaints(recs, r.lines, 0, k + 1)
  {
    var rec, added := recs[k], AddLine(st, recs[k].line);
    UpdateIs(env, added, j, rec.kind, rec.name, rec.time);
    ComplaintsSame(recs, added.lines, Touch(env, st, rec).lines, 0, k + 1);
    KnownComplaint(recs, k, added.lines, j);
    if j == |st.lines| { NewComplaint(recs, k, st, added.lines[j]); }
  }

  lemma {:induction false} KeptClock(env: Env, recs: seq<Rec>, k: nat, st: State, j: nat)
    requires k <= |recs| && Kept(env, recs, k, st) && j < |st.lines|
    ensures st.lines[j].time == ClockAt(recs, st.lines[j].line, k)
  {
    assert LineKept(env, recs, k, st, j);
  }

  lemma {:induction false} KnownComplaint(recs: seq<Rec>, k: nat, lines: seq<Line>, j: nat)
    requires k < |recs| && Names(recs[k], recs[k].line)
    requires DistinctLines(lines) && j == Lookup(lines, recs[k].line) < |lines|
    ensures AllComplaints(recs, lines, 0, k + 1) ==
            AllComplaints(recs, lines, 0, k) + One(ClockAt(recs, lines[j].line, k) > recs[k].time)
  {
    OnlyOne(lines, recs[k]);
    OneComplaint(recs, lines, 0, k, j);
  }

  lemma {:induction false} OnlyOne(lines: seq<Line>, rec: Rec)
    requires DistinctLines(lines) && Names(rec, rec.line)
    ensures forall m :: 0 <= m < |lines| ==> (m == Lookup(lines, rec.line) <==> Names(rec, lines[m].line))
  {}

  lemma {:induction false} NewComplaint(recs: seq<Rec>, k: nat, st: State, l: Line)
    requires k < |recs| && AllFound(recs, k, st.lines) && recs[k].line == l.line != ""
    requires Lookup(st.lines, l.line) == |st.lines|
    ensures AllComplaints(recs, st.lines + [l], 0, k) == AllComplaints(recs, st.lines, 0, k)
    ensures ClockAt(recs, l.line, k) == 0
  {
    assert !IsKnown(recs, l.line, k);
    LineUnknown(recs, l.line, k);
    ComplaintsAdd(recs, st.lines, l, 0, k);
  }

  lemma {:induction false} KeptLines(env: Env, recs: seq<Rec>, k: nat, st: State)
    requires k <= |recs| && Kept(env, recs, k, st)
    ensures forall i :: 0 <= i < |st.lines| ==> IsKnown(recs, st.lines[i].line, k)
    ensures forall i :: 0 <= i < |st.lines| ==> st.lines[i] == LineOf(recs, st.lines[i].line, k)
    ensures forall i :: 0 <= i < |st.lines| ==> st.lines[i].line != ""
  {
    forall i | 0 <= i < |st.lines|
      ensures IsKnown(recs, st.lines[i].line, k) && st.lines[i] == LineOf(recs, st.lines[i].line, k)
      ensures st.lines[i].line != ""
    {
      assert LineKept(env, recs, k, st, i);
    }
  }

  lemma {:induction false} BadKept(env: Env, recs: seq<Rec>, k: nat, st: State)
    requires k < |recs| && Kept(env, recs, k, st)
    ensures var r := Step(env, st, recs[k]); r.bad == AllComplaints(recs, r.lines, 0, k + 1)
  {
    var rec := recs[k];
    if rec.line != "" && Names(rec, rec.line) {
      var j := Lookup(st.lines, rec.line);
      if j < |st.lines| { KeptClock(env, recs, k, st, j); }
      TouchComplaint(env, recs, k, st, j);
    } else if rec.line != "" && rec.kind == BootTime {
      BootBad(env, recs, k, st);
    } else {
      KeptLines(env, recs, k, st);
      QuietComplaints(recs, st.lines, 0, k);
      NamesKept(env, st, rec);
      ComplaintsSame(recs, st.lines, Step(env, st, rec).lines, 0, k + 1);
    }
  }

  lemma {:induction false} BootBad(env: Env, recs: seq<Rec>, k: nat, st: State)
    requires k < |recs| && Kept(env, recs, k, st) && recs[k].line != "" && recs[k].kind == BootTime
    ensures var r := UpFrom(env, st, 0, recs[k].time); r.bad == AllComplaints(recs, r.lines, 0, k + 1)
  {
    KeptLines(env, recs, k, st);
    UpFromBad(env, st, 0, recs[k].time);
    BootComplaints(recs, st.lines, 0, k);
    UpFromNames(env, st, recs[k].time);
    ComplaintsSame(recs, st.lines, UpFrom(env, st, 0, recs[k].time).lines, 0, k + 1);
  }

  /** A record that concerns no line is no complaint. */
  lemma {:induction false} QuietComplaints(recs: seq<Rec>, lines: seq<Line>, i: nat, k: nat)
    requires k < |recs| && (recs[k].kind == BootTime ==> recs[k].line == "")
    requires forall m :: 0 <= m < |lines| ==> !Names(recs[k], lines[m].line)
    ensures AllComplaints(recs, lines, i, k + 1) == AllComplaints(recs, lines, i, k)
    decreases |lines| - i
  {
    if i < |lines| { QuietComplaints(recs, lines, i + 1, k); }
  }

  lemma {:induction false} ClockKept(env: Env, recs: seq<Rec>, k: nat, st: State)
    requires k < |recs| && st.datetime == Pending(recs, k) && st.ndates == DateChanges(recs, k)
    ensures var r := Step(env, st, recs[k]); r.datetime == Pending(recs, k + 1) && r.ndates == DateChanges(recs, k + 1)
  {
    var rec := recs[k];
    StepDates(env, st, rec);
    if rec.line != "" && rec.kind == BootTime {
      UpFromSize(env, st, 0, rec.time);
    } else if rec.line != "" && OnLine(rec.kind) {
      UpdateIs(env, AddLine(st, rec.line), Lookup(st.lines, rec.line), rec.kind, rec.name, rec.time);
    }
  }

  lemma {:induction false} StepKept(env: Env, recs: seq<Rec>, k: nat, st: State)
    requires k < |recs| && Kept(env, recs, k, st)
    ensures Kept(env, recs, k + 1, Step(env, st, recs[k]))
  {
    var rec, r := recs[k], Step(env, st, recs[k]);
    FoundKept(env, recs, k, st);
    BeyondKept(env, st, rec);
    ClockKept(env, recs, k, st);
    BadKept(env, recs, k, st);
    NamesKept(env, st, rec);
    var next := k + 1;
    forall i | 0 <= i < |r.lines| ensures LineKept(env, recs, next, r, i) {
      if i < |st.lines| { LinesKept(env, recs, k, st, i); } else { AddedKept(env, recs, k, st, i); }
    }
  }

  lemma {:induction false} AddedKept(env: Env, recs: seq<Rec>, k: nat, st: State, i: nat)
    requires k < |recs| && AllFound(recs, k, st.lines) && NoneBeyond(st)
    requires |st.lines| <= i < |Step(env, st, recs[k]).lines|
    ensures LineKept(env, recs, k + 1, Step(env, st, recs[k]), i)
  {
    NamesKept(env, st, recs[k]);
    NewKept(env, recs, k, st);
  }

  /**
   * After every log the tables hold, for exactly the lines that its records name, what the
   * log says of them: who is there, since when, how often and how long, and every session.
   */
  lemma {:induction false} HistoryExactly(env: Env, recs: seq<Rec>, k: nat)
    requires k <= |recs|
    ensures Kept(env, recs, k, Run(env, Init, recs[..k]))
    decreases k
  {
    if k == 0 {
      assert recs[..0] == [];
    } else {
      HistoryExactly(env, recs, k - 1);
      RunLast(env, Init, recs[..k]);
      assert recs[..k][..k - 1] == recs[..k - 1];
      StepKept(env, recs, k - 1, Run(env, Init, recs[..k - 1]));
    }
  }

  // ---- Users ----

  /** The entry of a user, if there is one. */
  function UserAt(users: seq<User>, uid: int): Option<User> {
    if users == [] then None else if users[0].uid == uid then Some(users[0]) else UserAt(users[1..], uid)
  }

  function AddTo(u: Option<User>, uid: int, name: string, con: (int, int)): User {
    match u
    case None => User(uid, name, con.0, con.1, 1)
    case Some(u) => User(uid, u.name, u.prime + con.0, u.nonprime + con.1, u.sess + 1)
  }

  lemma {:induction false} NotAbove(users: seq<User>, uid: int)
    requires Above(users, uid)
    ensures UserAt(users, uid) == None
    decreases |users|
  {
    if users != [] { NotAbove(users[1..], uid); }
  }

  /** A session is entered for its own user, prime with prime time and non-prime with the rest. */
  lemma {:induction false} EnterExactly(users: seq<User>, uid: int, name: string, con: (int, int), v: int)
    requires Sorted(users)
    ensures UserAt(Enter(users, uid, name, con), v) ==
            if v == uid then Some(AddTo(UserAt(users, uid), uid, name, con)) else UserAt(users, v)
    decreases |users|
  {
    var r := Enter(users, uid, name, con);
    if users == [] || uid < users[0].uid {
      assert r[1..] == users;
      NotAbove(users, uid);
    } else if uid == users[0].uid {
      assert r[1..] == users[1..];
    } else {
      assert r[1..] == Enter(users[1..], uid, name, con);
      EnterExactly(users[1..], uid, name, con, v);
    }
  }

  /** Prime and non-prime time of the sessions of a user. */
  function PrimeOf(env: Env, sessions: seq<Session>, uid: int): int {
    if sessions == [] then 0
    else
      var s := sessions[|sessions| - 1];
      PrimeOf(env, sessions[..|sessions| - 1], uid) + (if s.uid == uid then env.split(s.start, s.time).0 else 0)
  }

  function NonprimeOf(env: Env, sessions: seq<Session>, uid: int): int {
    if sessions == [] then 0
    else
      var s := sessions[|sessions| - 1];
      NonprimeOf(env, sessions[..|sessions| - 1], uid) + (if s.uid == uid then env.split(s.start, s.time).1 else 0)
  }

  /** The first session of a user, or the number of sessions. */
  function FirstOf(sessions: seq<Session>, uid: int): (m: nat)
    ensures m <= |sessions| && forall j :: 0 <= j < m ==> sessions[j].uid != uid
    ensures m < |sessions| ==> sessions[m].uid == uid
  {
    if sessions == [] || sessions[0].uid == uid then 0 else 1 + FirstOf(sessions[1..], uid)
  }

  /** A user is entered exactly if they have sessions, under the name of the first, with their sums. */
  ghost predicate UserIs(env: Env, st: State, uid: int) {
    var m := FirstOf(st.sessions, uid);
    UserAt(st.users, uid) ==
      if m < |st.sessions| then
        Some(User(uid, st.sessions[m].name, PrimeOf(env, st.sessions, uid), NonprimeOf(env, st.sessions, uid),
                  CountOf(st.sessions, uid)))
      else None
  }

  lemma {:induction false} FirstOfAdd(sessions: seq<Session>, s: Session, uid: int)
    ensures FirstOf(sessions + [s], uid) ==
            if FirstOf(sessions, uid) < |sessions| then FirstOf(sessions, uid)
            else if s.uid == uid then |sessions| else |sessions| + 1
  {
    var m, n := FirstOf(sessions, uid), FirstOf(sessions + [s], uid);
    if m < |sessions| {
      assert (sessions + [s])[m].uid == uid;
      assert n <= m;
      assert n < |sessions| && sessions[n].uid == uid;
    } else {
      assert forall j :: 0 <= j < |sessions| ==> (sessions + [s])[j].uid != uid;
      assert (sessions + [s])[|sessions|] == s;
    }
  }

  lemma {:induction false} NoSessions(env: Env, sessions: seq<Session>, uid: int)
    requires forall j :: 0 <= j < |sessions| ==> sessions[j].uid != uid
    ensures PrimeOf(env, sessions, uid) == 0 && NonprimeOf(env, sessions, uid) == 0 && CountOf(sessions, uid) == 0
    decreases |sessions|
  {
    if sessions != [] { NoSessions(env, sessions[..|sessions| - 1], uid); }
  }

  lemma {:induction false} SumsAdd(env: Env, sessions: seq<Session>, s: Session, uid: int)
    ensures var r, con := sessions + [s], env.split(s.start, s.time);
      && PrimeOf(env, r, uid) == PrimeOf(env, sessions, uid) + (if s.uid == uid then con.0 else 0)
      && NonprimeOf(env, r, uid) == NonprimeOf(env, sessions, uid) + (if s.uid == uid then con.1 else 0)
      && CountOf(r, uid) == CountOf(sessions, uid) + (if s.uid == uid then 1 else 0)
  {
    assert (sessions + [s])[..|sessions|] == sessions;
  }

  lemma {:induction false} EnterKept(env: Env, st: State, s: Session, r: State, uid: int)
    requires Sorted(st.users) && UserIs(env, st, uid)
    requires r.sessions == st.sessions + [s]
    requires r.users == Enter(st.users, s.uid, s.name, env.split(s.start, s.time))
    ensures UserIs(env, r, uid)
  {
    EnterExactly(st.users, s.uid, s.name, env.split(s.start, s.time), uid);
    FirstOfAdd(st.sessions, s, uid);
    SumsAdd(env, st.sessions, s, uid);
    if FirstOf(st.sessions, uid) == |st.sessions| { NoSessions(env, st.sessions, uid); }
  }

  lemma {:induction false} UpdateUser(env: Env, st: State, i: nat, kind: Kind, name: string, time: int, uid: int)
    requires i < |st.lines| && Sorted(st.users) && UserIs(env, st, uid)
    ensures var r := Update(env, st, i, kind, name, time); Sorted(r.users) && UserIs(env, r, uid)
  {
    var r, l := Update(env, st, i, kind, name, time), st.lines[i];
    UpdateEnters(env, st, i, kind, name, time);
    if l.time <= time && EndsSession(l, kind) {
      var s := Session(i, l.name, env.uidOf(l.name), l.time, time - l.time, kind == UserProcess);
      EnterKept(env, st, s, r, uid);
      EnterSorted(st.users, s.uid, s.name, env.split(s.start, s.time));
    } else {
      SameUserIs(env, st, r, uid);
    }
  }

  lemma {:induction false} UpFromUser(env: Env, st: State, i: nat, time: int, uid: int)
    requires Sorted(st.users) && UserIs(env, st, uid)
    ensures var r := UpFrom(env, st, i, time); Sorted(r.users) && UserIs(env, r, uid)
    decreases |st.lines| - i
  {
    if i < |st.lines| {
      UpdateUser(env, st, i, DeadProcess, "", time, uid);
      UpFromUser(env, Update(env, st, i, DeadProcess, "", time), i + 1, time, uid);
    }
  }

  lemma {:induction false} StepUser(env: Env, st: State, rec: Rec, uid: int)
    requires Sorted(st.users) && UserIs(env, st, uid)
    ensures var r := Step(env, st, rec); Sorted(r.users) && UserIs(env, r, uid)
  {
    if rec.line != "" && rec.kind == BootTime {
      UpFromUser(env, st, 0, rec.time, uid);
    } else if rec.line != "" && OnLine(rec.kind) {
      TouchUser(env, st, rec, uid);
    } else {
      SameUserIs(env, st, Step(env, st, rec), uid);
    }
  }

  lemma {:induction false} SameUserIs(env: Env, st: State, r: State, uid: int)
    requires UserIs(env, st, uid) && r.users == st.users && r.sessions == st.sessions
    ensures UserIs(env, r, uid)
  {}

  lemma {:induction false} TouchUser(env: Env, st: State, rec: Rec, uid: int)
    requires Sorted(st.users) && UserIs(env, st, uid)
    ensures var r := Touch(env, st, rec); Sorted(r.users) && UserIs(env, r, uid)
  {
    SameUserIs(env, st, AddLine(st, rec.line), uid);
    UpdateUser(env, AddLine(st, rec.line), Lookup(st.lines, rec.line), rec.kind, rec.name, rec.time, uid);
  }

  /** After every log, and for every way of dividing time. */
  lemma {:induction false} UsersExactly(env: Env, recs: seq<Rec>, uid: int)
    ensures Sorted(Run(env, Init, recs).users) && UserIs(env, Run(env, Init, recs), uid)
    decreases |recs|
  {
    if recs != [] {
      RunLast(env, Init, recs);
      UsersExactly(env, recs[..|recs| - 1], uid);
      StepUser(env, Run(env, Init, recs[..|recs| - 1]), recs[|recs| - 1], uid);
    }
  }
}
