/** Conservation of connect time, and invariance under changes of the clock. */
module AcctConLaws {
  import opened Utmpx
  import opened AcctConSpec

  // ---- Conservation ----

  lemma {:induction false} EnterAdds(users: seq<User>, uid: int, name: string, con: (int, int), v: int)
    ensures var r := Enter(users, uid, name, con);
      && UserPrime(r, v) == UserPrime(users, v) + (if v == uid then con.0 else 0)
      && UserNonprime(r, v) == UserNonprime(users, v) + (if v == uid then con.1 else 0)
      && UserCount(r, v) == UserCount(users, v) + (if v == uid then 1 else 0)
      && UsersTotal(r) == UsersTotal(users) + con.0 + con.1
    decreases |users|
  {
    var r := Enter(users, uid, name, con);
    if users == [] || uid < users[0].uid {
      assert r[1..] == users;
    } else if uid == users[0].uid {
      assert r[1..] == users[1..];
    } else {
      assert r[1..] == Enter(users[1..], uid, name, con);
      EnterAdds(users[1..], uid, name, con, v);
    }
  }

  predicate Above(users: seq<User>, b: int) {
    forall j :: 0 <= j < |users| ==> b < users[j].uid
  }

  lemma {:induction false} EnterAbove(users: seq<User>, uid: int, name: string, con: (int, int), b: int)
    requires Above(users, b) && b < uid
    ensures Above(Enter(users, uid, name, con), b)
    decreases |users|
  {
    if users != [] && uid > users[0].uid { EnterAbove(users[1..], uid, name, con, b); }
  }

  lemma {:induction false} EnterSorted(users: seq<User>, uid: int, name: string, con: (int, int))
    requires Sorted(users)
    ensures Sorted(Enter(users, uid, name, con))
    decreases |users|
  {
    if users != [] && uid > users[0].uid {
      EnterSorted(users[1..], uid, name, con);
      EnterAbove(users[1..], uid, name, con, users[0].uid);
    }
  }

  lemma {:induction false} LinesTotalSet(lines: seq<Line>, i: nat, l: Line)
    requires i < |lines|
    ensures LinesTotal(lines[i := l]) == LinesTotal(lines) - lines[i].total + l.total
    decreases |lines|
  {
    if i > 0 {
      assert lines[i := l][1..] == lines[1..][i - 1 := l];
      LinesTotalSet(lines[1..], i - 1, l);
    } else {
      assert lines[i := l][1..] == lines[1..];
    }
  }

  lemma {:induction false} LinesTotalAdd(lines: seq<Line>, l: Line)
    ensures LinesTotal(lines + [l]) == LinesTotal(lines) + l.total
    decreases |lines|
  {
    if lines == [] {
      assert lines + [l] == [l];
    } else {
      assert (lines + [l])[1..] == lines[1..] + [l];
      LinesTotalAdd(lines[1..], l);
    }
  }

  lemma {:induction false} SessionsAdd(sessions: seq<Session>, s: Session, i: nat, uid: int)
    ensures var r := sessions + [s];
      && TimeOn(r, i) == TimeOn(sessions, i) + (if s.line == i then s.time else 0)
      && CountOn(r, i) == CountOn(sessions, i) + (if s.line == i then 1 else 0)
      && ReloginsOn(r, i) == ReloginsOn(sessions, i) + (if s.line == i && s.relogin then 1 else 0)
      && TimeOf(r, uid) == TimeOf(sessions, uid) + (if s.uid == uid then s.time else 0)
      && CountOf(r, uid) == CountOf(sessions, uid) + (if s.uid == uid then 1 else 0)
      && AllTime(r) == AllTime(sessions) + s.time
  {
    assert (sessions + [s])[..|sessions|] == sessions;
  }

  lemma {:induction false} OccursAdd(xs: seq<nat>, x: nat, i: nat)
    ensures Occurs(xs + [x], i) == Occurs(xs, i) + (if x == i then 1 else 0)
  {
    assert (xs + [x])[..|xs|] == xs;
  }

  /** Balanced, except that line i is still to be settled. */
  ghost predicate BalancedBut(st: State, i: nat) {
    && (forall j :: 0 <= j < |st.lines| && j != i ==> LineBalanced(st, j))
    && (forall j :: j >= |st.lines| ==> LineUnused(st, j))
    && Sorted(st.users)
    && (forall uid :: UserBalanced(st, uid))
    && LinesTotal(st.lines) == AllTime(st.sessions) == UsersTotal(st.users)
  }

  /** Line i after a session is finished, before the login or logout that ended it is counted. */
  predicate LineFinished(st: State, i: nat, relogin: bool)
    requires i < |st.lines|
  {
    var l := st.lines[i];
    && l.name == "" && l.total == TimeOn(st.sessions, i)
    && l.sess == CountOn(st.sessions, i) + Occurs(st.blanks, i)
    && l.sess + (if relogin then 1 else 0) == l.on + ReloginsOn(st.sessions, i)
    && CountOn(st.sessions, i) <= ReloginsOn(st.sessions, i) + l.off + (if relogin then 0 else 1)
  }

  lemma {:induction false} FinishBalanced(env: Env, st: State, i: nat, time: int, relogin: bool)
    requires Splits(env) && Balanced(st) && i < |st.lines|
    requires st.lines[i].name != "" && st.lines[i].time <= time
    ensures var r := Finish(env, st, i, time, relogin); BalancedBut(r, i) && LineFinished(r, i, relogin)
  {
    var l, r := st.lines[i], Finish(env, st, i, time, relogin);
    var uid, s := env.uidOf(l.name), r.sessions[|st.sessions|];
    var con := env.split(l.time, time - l.time);
    assert LineBalanced(st, i);
    forall j: nat ensures j < |r.lines| && j != i ==> LineBalanced(r, j)
                  ensures j >= |r.lines| ==> LineUnused(r, j)
    {
      SessionsAdd(st.sessions, s, j, uid);
      assert j < |st.lines| ==> LineBalanced(st, j);
      assert j >= |st.lines| ==> LineUnused(st, j);
    }
    forall v ensures UserBalanced(r, v) {
      SessionsAdd(st.sessions, s, i, v);
      EnterAdds(st.users, uid, l.name, con, v);
      assert UserBalanced(st, v);
    }
    EnterSorted(st.users, uid, l.name, con);
    EnterAdds(st.users, uid, l.name, con, uid);
    SessionsAdd(st.sessions, s, i, uid);
    LinesTotalSet(st.lines, i, r.lines[i]);
  }

  lemma {:induction false} SameBooks(st: State, r: State)
    requires Balanced(st)
    requires r.lines == st.lines && r.users == st.users && r.sessions == st.sessions && r.blanks == st.blanks
    ensures Balanced(r)
  {
    forall j | 0 <= j < |r.lines| ensures LineBalanced(r, j) { assert LineBalanced(st, j); }
    forall j | j >= |r.lines| ensures LineUnused(r, j) { assert LineUnused(st, j); }
    forall v ensures UserBalanced(r, v) { assert UserBalanced(st, v); }
  }

  /** Settling line i: the other books stay, and the line itself balances. */
  lemma {:induction false} Settle(st: State, i: nat, r: State)
    requires i < |st.lines| && BalancedBut(st, i)
    requires |r.lines| == |st.lines| && r.lines == st.lines[i := r.lines[i]] && r.lines[i].total == st.lines[i].total
    requires r.users == st.users && r.sessions == st.sessions
    requires r.blanks == st.blanks || r.blanks == st.blanks + [i]
    requires LineBalanced(r, i)
    ensures Balanced(r)
  {
    forall j: nat ensures j < |r.lines| ==> LineBalanced(r, j)
                  ensures j >= |r.lines| ==> LineUnused(r, j)
    {
      OccursAdd(st.blanks, i, j);
      assert j < |st.lines| && j != i ==> LineBalanced(st, j);
      assert j >= |st.lines| ==> LineUnused(st, j);
    }
    forall v ensures UserBalanced(r, v) { assert UserBalanced(st, v); }
    LinesTotalSet(st.lines, i, r.lines[i]);
  }

  lemma {:induction false} LoginBalanced(env: Env, st: State, i: nat, name: string, time: int)
    requires Splits(env) && Balanced(st) && i < |st.lines| && st.lines[i].time <= time
    ensures Balanced(Login(env, st, i, name, time))
  {
    var r := Login(env, st, i, name, time);
    OccursAdd(st.blanks, i, i);
    assert LineBalanced(st, i);
    if st.lines[i].name != "" {
      FinishBalanced(env, st, i, time, true);
      Settle(Finish(env, st, i, time, true), i, r);
    } else {
      Settle(st, i, r);
    }
  }

  lemma {:induction false} LogoutBalanced(env: Env, st: State, i: nat, time: int)
    requires Splits(env) && Balanced(st) && i < |st.lines| && st.lines[i].time <= time
    ensures Balanced(Logout(env, st, i, time))
  {
    var r := Logout(env, st, i, time);
    assert LineBalanced(st, i);
    if st.lines[i].name != "" {
      FinishBalanced(env, st, i, time, false);
      Settle(Finish(env, st, i, time, false), i, r);
    } else {
      Settle(st, i, r);
    }
  }

  lemma {:induction false} RetimeBalanced(st: State, i: nat, time: int, bad: nat)
    requires Balanced(st) && i < |st.lines|
    ensures Balanced(SetLine(st, i, st.lines[i].(time := time)).(bad := bad))
  {
    assert LineBalanced(st, i);
    Settle(st, i, SetLine(st, i, st.lines[i].(time := time)).(bad := bad));
  }

  lemma {:induction false} UpdateBalanced(env: Env, st: State, i: nat, kind: Kind, name: string, time: int)
    requires Splits(env) && Balanced(st) && i < |st.lines|
    ensures Balanced(Update(env, st, i, kind, name, time))
  {
    if st.lines[i].time > time {
      RetimeBalanced(st, i, time, st.bad + 1);
    } else if kind == UserProcess {
      LoginBalanced(env, st, i, name, time);
    } else if kind == DeadProcess {
      LogoutBalanced(env, st, i, time);
    } else {
      RetimeBalanced(st, i, time, st.bad);
    }
  }

  lemma {:induction false} UpFromBalanced(env: Env, st: State, i: nat, time: int)
    requires Splits(env) && Balanced(st)
    ensures Balanced(UpFrom(env, st, i, time))
    decreases |st.lines| - i
  {
    if i < |st.lines| {
      UpdateBalanced(env, st, i, DeadProcess, "", time);
      UpFromBalanced(env, Update(env, st, i, DeadProcess, "", time), i + 1, time);
    }
  }

  lemma {:induction false} AddLineBalanced(st: State, line: string)
    requires Balanced(st)
    ensures Balanced(AddLine(st, line))
  {
    var r := AddLine(st, line);
    LinesTotalAdd(st.lines, Line(line, "", 0, 0, 0, 0, 0));
    forall j: nat ensures j < |r.lines| ==> LineBalanced(r, j)
                  ensures j >= |r.lines| ==> LineUnused(r, j)
    {
      assert j < |st.lines| ==> LineBalanced(st, j);
      assert j >= |st.lines| ==> LineUnused(st, j);
    }
    forall v ensures UserBalanced(r, v) { assert UserBalanced(st, v); }
  }

  lemma {:induction false} LinesTotalShift(lines: seq<Line>, d: int)
    ensures LinesTotal(ShiftLines(lines, d)) == LinesTotal(lines)
    decreases |lines|
  {
    if lines != [] {
      assert ShiftLines(lines, d)[1..] == ShiftLines(lines[1..], d);
      LinesTotalShift(lines[1..], d);
    }
  }

  lemma {:induction false} ShiftBalanced(st: State, d: int)
    requires Balanced(st)
    ensures Balanced(st.(lines := ShiftLines(st.lines, d), datetime := 0, ndates := st.ndates + 1))
  {
    var r := st.(lines := ShiftLines(st.lines, d), datetime := 0, ndates := st.ndates + 1);
    LinesTotalShift(st.lines, d);
    forall j | 0 <= j < |r.lines| ensures LineBalanced(r, j) { assert LineBalanced(st, j); }
    forall j | j >= |r.lines| ensures LineUnused(r, j) { assert LineUnused(st, j); }
    forall v ensures UserBalanced(r, v) { assert UserBalanced(st, v); }
  }

  lemma {:induction false} StepBalanced(env: Env, st: State, rec: Rec)
    requires Splits(env) && Balanced(st)
    ensures Balanced(Step(env, st, rec))
  {
    if rec.line != "" {
      match rec.kind
      case NewTime => ShiftBalanced(st, rec.time - st.datetime);
      case BootTime => UpFromBalanced(env, st, 0, rec.time);
      case OldTime => SameBooks(st, st.(datetime := rec.time));
      case _ =>
        AddLineBalanced(st, rec.line);
        if Step(env, st, rec) != st {
          UpdateBalanced(env, AddLine(st, rec.line), Lookup(st.lines, rec.line), rec.kind, rec.name, rec.time);
        }
    }
  }

  /** After every run the tables are exactly the sums of the finished sessions. */
  lemma {:induction false} RunBalanced(env: Env, st: State, recs: seq<Rec>)
    requires Splits(env) && Balanced(st)
    ensures Balanced(Run(env, st, recs))
    decreases |recs|
  {
    if recs != [] {
      StepBalanced(env, st, recs[0]);
      RunBalanced(env, Step(env, st, recs[0]), recs[1..]);
    }
  }

  lemma {:induction false} InitBalanced()
    ensures Balanced(Init)
  {}

  lemma {:induction false} UserTimeAt(users: seq<User>, j: nat)
    requires Sorted(users) && j < |users|
    ensures UserTime(users, users[j].uid) == users[j].prime + users[j].nonprime
    ensures UserCount(users, users[j].uid) == users[j].sess
    decreases |users|
  {
    if j == 0 {
      UserTimeNone(users[1..], users[0].uid);
    } else {
      assert users[1..][j - 1] == users[j];
      UserTimeAt(users[1..], j - 1);
    }
  }

  lemma {:induction false} UserTimeNone(users: seq<User>, uid: int)
    requires Above(users, uid)
    ensures UserTime(users, uid) == 0 && UserCount(users, uid) == 0
    decreases |users|
  {
    if users != [] { UserTimeNone(users[1..], uid); }
  }

  // ---- Logins without a name ----

  /** A login without a name that is counted on line i: its time is not before the line's. */
  predicate IsBlankLogin(st: State, rec: Rec, i: nat) {
    && rec.kind == UserProcess && rec.name == "" && rec.line != "" && Lookup(st.lines, rec.line) == i
    && (if i < |st.lines| then st.lines[i].time else 0) <= rec.time
  }

  /** Such a record stands in the log. */
  ghost predicate HasBlankLogin(env: Env, recs: seq<Rec>, i: nat) {
    exists k :: 0 <= k < |recs| && IsBlankLogin(Run(env, Init, recs[..k]), recs[k], i)
  }

  lemma {:induction false} UpFromBlanks(env: Env, st: State, i: nat, time: int)
    ensures UpFrom(env, st, i, time).blanks == st.blanks
    decreases |st.lines| - i
  {
    if i < |st.lines| { UpFromBlanks(env, Update(env, st, i, DeadProcess, "", time), i + 1, time); }
  }

  lemma {:induction false} StepBlanks(env: Env, st: State, rec: Rec, i: nat)
    ensures i in Step(env, st, rec).blanks <==> i in st.blanks || IsBlankLogin(st, rec, i)
  {
    if rec.kind == BootTime { UpFromBlanks(env, st, 0, rec.time); }
  }

  lemma {:induction false} RunLast(env: Env, st: State, recs: seq<Rec>)
    requires recs != []
    ensures Run(env, st, recs) == Step(env, Run(env, st, recs[..|recs| - 1]), recs[|recs| - 1])
  {
    var n := |recs| - 1;
    RunConcat(env, st, recs[..n], [recs[n]]);
    assert recs == recs[..n] + [recs[n]];
    assert [recs[n]][1..] == [];
  }

  lemma {:induction false} BlanksExactly(env: Env, recs: seq<Rec>, i: nat)
    ensures i in Run(env, Init, recs).blanks <==> HasBlankLogin(env, recs, i)
    decreases |recs|
  {
    if recs != [] {
      var n := |recs| - 1;
      BlanksExactly(env, recs[..n], i);
      RunLast(env, Init, recs);
      StepBlanks(env, Run(env, Init, recs[..n]), recs[n], i);
      forall k | 0 <= k < n
        ensures IsBlankLogin(Run(env, Init, recs[..k]), recs[k], i) <==>
                IsBlankLogin(Run(env, Init, recs[..n][..k]), recs[..n][k], i)
      {
        assert recs[..n][..k] == recs[..k];
      }
    }
  }

  /**
   * Conservation over every run of the program.  Time is neither lost nor made between lines
   * and users, and a line's count of logins is its finished sessions, plus one if a user is
   * on it, exactly when the log has no login without a name that was counted there.
   */
  lemma {:induction false} Conservation(env: Env, recs: seq<Rec>)
    requires Splits(env)
    ensures var st := Run(env, Init, recs);
      && LinesTotal(st.lines) == UsersTotal(st.users) == AllTime(st.sessions)
      && (forall i :: 0 <= i < |st.lines| ==> st.lines[i].total == TimeOn(st.sessions, i))
      && (forall i :: 0 <= i < |st.lines| ==>
            (st.lines[i].sess == CountOn(st.sessions, i) + (if st.lines[i].name != "" then 1 else 0)
             <==> !HasBlankLogin(env, recs, i)))
      && (forall i :: 0 <= i < |st.lines| ==>
            st.lines[i].sess == st.lines[i].on + ReloginsOn(st.sessions, i) &&
            CountOn(st.sessions, i) <= ReloginsOn(st.sessions, i) + st.lines[i].off)
      && (forall j :: 0 <= j < |st.users| ==>
            var u := st.users[j];
            u.prime + u.nonprime == TimeOf(st.sessions, u.uid) && u.sess == CountOf(st.sessions, u.uid))
  {
    InitBalanced();
    RunBalanced(env, Init, recs);
    var st := Run(env, Init, recs);
    forall i | 0 <= i < |st.lines|
      ensures st.lines[i].total == TimeOn(st.sessions, i)
      ensures st.lines[i].sess == CountOn(st.sessions, i) + (if st.lines[i].name != "" then 1 else 0)
              <==> !HasBlankLogin(env, recs, i)
      ensures st.lines[i].sess == st.lines[i].on + ReloginsOn(st.sessions, i)
      ensures CountOn(st.sessions, i) <= ReloginsOn(st.sessions, i) + st.lines[i].off
    {
      assert LineBalanced(st, i);
      OccursIn(st.blanks, i);
      BlanksExactly(env, recs, i);
    }
    forall j | 0 <= j < |st.users|
      ensures var u := st.users[j];
        u.prime + u.nonprime == TimeOf(st.sessions, u.uid) && u.sess == CountOf(st.sessions, u.uid)
    {
      UserTimeAt(st.users, j);
      assert UserBalanced(st, st.users[j].uid);
    }
  }

  /** If every login has a name, a line's logins are its sessions, finished and current. */
  lemma {:induction false} NamedLogins(env: Env, recs: seq<Rec>)
    requires Splits(env)
    requires forall k :: 0 <= k < |recs| && recs[k].kind == UserProcess ==> recs[k].name != ""
    ensures var st := Run(env, Init, recs);
      forall i :: 0 <= i < |st.lines| ==>
        st.lines[i].sess == CountOn(st.sessions, i) + (if st.lines[i].name != "" then 1 else 0)
  {
    Conservation(env, recs);
  }

  lemma {:induction false} OccursIn(xs: seq<nat>, x: nat)
    ensures Occurs(xs, x) > 0 <==> x in xs
    decreases |xs|
  {
    if xs != [] {
      OccursIn(xs[..|xs| - 1], x);
      assert xs == xs[..|xs| - 1] + [xs[|xs| - 1]];
    }
  }

  // ---- Clock changes ----

  function ShiftRec(rec: Rec, d: int): Rec {
    rec.(time := rec.time + d)
  }

  function ShiftRecs(recs: seq<Rec>, d: int): (r: seq<Rec>)
    ensures |r| == |recs|
  {
    seq(|recs|, i requires 0 <= i < |recs| => ShiftRec(recs[i], d))
  }

  predicate SameUser(a: User, b: User) {
    a.uid == b.uid && a.name == b.name && a.sess == b.sess && a.prime + a.nonprime == b.prime + b.nonprime
  }

  predicate SameUsers(a: seq<User>, b: seq<User>) {
    |a| == |b| && forall j :: 0 <= j < |a| ==> SameUser(a[j], b[j])
  }

  predicate SameSessions(a: seq<Session>, b: seq<Session>) {
    |a| == |b| && forall j :: 0 <= j < |a| ==>
      a[j].line == b[j].line && a[j].name == b[j].name && a[j].uid == b[j].uid && a[j].time == b[j].time &&
      a[j].relogin == b[j].relogin
  }

  /** b is what a is, with every line's clock d ahead. */
  ghost predicate Ahead(a: State, b: State, d: int) {
    && b.lines == ShiftLines(a.lines, d)
    && SameUsers(a.users, b.users) && SameSessions(a.sessions, b.sessions)
    && b.blanks == a.blanks && b.bad == a.bad
    && b.datetime == (if a.datetime == 0 then 0 else a.datetime + d)
    && (a.datetime != 0 ==> b.datetime != 0)
  }

  lemma {:induction false} EnterSame(a: seq<User>, b: seq<User>, uid: int, name: string, ca: (int, int), cb: (int, int))
    requires SameUsers(a, b) && ca.0 + ca.1 == cb.0 + cb.1
    ensures SameUsers(Enter(a, uid, name, ca), Enter(b, uid, name, cb))
    decreases |a|
  {
    if a != [] {
      assert SameUser(a[0], b[0]);
      if uid > a[0].uid { EnterSame(a[1..], b[1..], uid, name, ca, cb); }
    }
  }

  lemma {:induction false} FinishAhead(env: Env, a: State, b: State, d: int, i: nat, time: int, relogin: bool)
    requires Splits(env) && Ahead(a, b, d) && i < |a.lines| && a.lines[i].time <= time
    ensures Ahead(Finish(env, a, i, time, relogin), Finish(env, b, i, time + d, relogin), d)
  {
    var l, m := a.lines[i], b.lines[i];
    EnterSame(a.users, b.users, env.uidOf(l.name), l.name,
              env.split(l.time, time - l.time), env.split(m.time, time + d - m.time));
  }

  lemma {:induction false} UpdateAhead(env: Env, a: State, b: State, d: int, i: nat, kind: Kind, name: string,
                                       time: int)
    requires Splits(env) && i < |a.lines| && i < |b.lines|
    requires Ahead(a, b, d)
    ensures Ahead(Update(env, a, i, kind, name, time), Update(env, b, i, kind, name, time + d), d)
  {
    if a.lines[i].time <= time && a.lines[i].name != "" && (kind == UserProcess || kind == DeadProcess) {
      FinishAhead(env, a, b, d, i, time, kind == UserProcess);
    }
  }

  lemma {:induction false} UpFromAhead(env: Env, a: State, b: State, d: int, i: nat, time: int)
    requires Splits(env) && Ahead(a, b, d)
    ensures Ahead(UpFrom(env, a, i, time), UpFrom(env, b, i, time + d), d)
    decreases |a.lines| - i
  {
    if i < |a.lines| {
      UpdateAhead(env, a, b, d, i, DeadProcess, "", time);
      UpFromAhead(env, Update(env, a, i, DeadProcess, "", time), Update(env, b, i, DeadProcess, "", time + d),
                  d, i + 1, time);
    }
  }

  lemma {:induction false} LookupShift(lines: seq<Line>, d: int, line: string)
    ensures Lookup(ShiftLines(lines, d), line) == Lookup(lines, line)
    decreases |lines|
  {
    if lines != [] {
      assert ShiftLines(lines, d)[1..] == ShiftLines(lines[1..], d);
      LookupShift(lines[1..], d, line);
    }
  }

  /** A new line starts at time 0 on either clock, which no record can tell from a start at d. */
  lemma {:induction false} FreshLine(env: Env, b: State, line: string, d: int, kind: Kind, name: string, time: int)
    requires time >= 0 && time + d >= 0
    ensures var n := |b.lines|;
      Update(env, b.(lines := b.lines + [Line(line, "", 0, 0, 0, 0, 0)]), n, kind, name, time + d) ==
      Update(env, b.(lines := b.lines + [Line(line, "", d, 0, 0, 0, 0)]), n, kind, name, time + d)
  {
    var n := |b.lines|;
    var x := b.(lines := b.lines + [Line(line, "", 0, 0, 0, 0, 0)]);
    var y := b.(lines := b.lines + [Line(line, "", d, 0, 0, 0, 0)]);
    assert forall l :: SetLine(x, n, l) == SetLine(y, n, l);
  }

  lemma {:induction false} TouchAhead(env: Env, a: State, b: State, d: int, rec: Rec)
    requires Splits(env) && Ahead(a, b, d) && rec.time > 0 && rec.time + d > 0
    ensures Ahead(Touch(env, a, rec), Touch(env, b, ShiftRec(rec, d)), d)
  {
    LookupShift(a.lines, d, rec.line);
    var i := Lookup(a.lines, rec.line);
    if i < |a.lines| {
      UpdateAhead(env, a, b, d, i, rec.kind, rec.name, rec.time);
    } else {
      NewLineAhead(env, a, b, d, rec);
    }
  }

  lemma {:induction false} NewLineAhead(env: Env, a: State, b: State, d: int, rec: Rec)
    requires Splits(env) && Ahead(a, b, d) && rec.time > 0 && rec.time + d > 0
    ensures var n, blank := |a.lines|, [Line(rec.line, "", 0, 0, 0, 0, 0)];
      && |b.lines| == n
      && Ahead(Update(env, a.(lines := a.lines + blank), n, rec.kind, rec.name, rec.time),
               Update(env, b.(lines := b.lines + blank), n, rec.kind, rec.name, rec.time + d), d)
  {
    var a1 := a.(lines := a.lines + [Line(rec.line, "", 0, 0, 0, 0, 0)]);
    var b1 := b.(lines := b.lines + [Line(rec.line, "", d, 0, 0, 0, 0)]);
    assert b1.lines == ShiftLines(a1.lines, d);
    FreshLine(env, b, rec.line, d, rec.kind, rec.name, rec.time);
    UpdateAhead(env, a1, b1, d, |a.lines|, rec.kind, rec.name, rec.time);
  }

  lemma {:induction false} ShiftShift(lines: seq<Line>, d: int, e: int)
    ensures ShiftLines(ShiftLines(lines, d), e) == ShiftLines(ShiftLines(lines, e), d)
  {}

  lemma {:induction false} StepAhead(env: Env, a: State, b: State, d: int, rec: Rec)
    requires Splits(env) && Ahead(a, b, d) && rec.time > 0 && rec.time + d > 0
    ensures Ahead(Step(env, a, rec), Step(env, b, ShiftRec(rec, d)), d)
  {
    if rec.line == "" {
    } else if rec.kind == NewTime {
      ShiftShift(a.lines, d, rec.time - a.datetime);
    } else if rec.kind == BootTime {
      UpFromAhead(env, a, b, d, 0, rec.time);
    } else if rec.kind in {UserProcess, LoginProcess, InitProcess, DeadProcess} {
      TouchAhead(env, a, b, d, rec);
    }
  }

  /** Only a new time that follows an old one is counted. */
  lemma {:induction false} StepDates(env: Env, st: State, rec: Rec)
    ensures Step(env, st, rec).ndates ==
            st.ndates + (if rec.line != "" && rec.kind == NewTime && st.datetime != 0 then 1 else 0)
  {
    if rec.kind == BootTime { UpFromDates(env, st, 0, rec.time); }
  }

  lemma {:induction false} UpFromDates(env: Env, st: State, i: nat, time: int)
    ensures UpFrom(env, st, i, time).ndates == st.ndates
    decreases |st.lines| - i
  {
    if i < |st.lines| { UpFromDates(env, Update(env, st, i, DeadProcess, "", time), i + 1, time); }
  }

  lemma {:induction false} RunAhead(env: Env, a: State, b: State, d: int, recs: seq<Rec>)
    requires Splits(env) && Ahead(a, b, d)
    requires forall i :: 0 <= i < |recs| ==> recs[i].time > 0 && recs[i].time + d > 0
    ensures Ahead(Run(env, a, recs), Run(env, b, ShiftRecs(recs, d)), d)
    ensures Run(env, a, recs).ndates - a.ndates == Run(env, b, ShiftRecs(recs, d)).ndates - b.ndates
    decreases |recs|
  {
    if recs != [] {
      assert ShiftRecs(recs, d)[1..] == ShiftRecs(recs[1..], d);
      StepAhead(env, a, b, d, recs[0]);
      StepDates(env, a, recs[0]);
      StepDates(env, b, ShiftRec(recs[0], d));
      RunAhead(env, Step(env, a, recs[0]), Step(env, b, ShiftRec(recs[0], d)), d, recs[1..]);
    }
  }

  /** The two records written when the clock is set forward by d. */
  function ClockPair(t: int, d: int): seq<Rec> {
    [Rec("old time", "", OldTime, t), Rec("new time", "", NewTime, t + d)]
  }

  /** The pair moves every line to the new clock, unless the old time is 0. */
  lemma {:induction false} ClockPairMoves(env: Env, st: State, t: int, d: int)
    requires st.datetime == 0
    ensures Run(env, st, ClockPair(t, d)).ndates == if t == 0 then st.ndates else st.ndates + 1
    ensures Ahead(st, Run(env, st, ClockPair(t, d)), d) <==> t != 0 || d == 0 || st.lines == []
  {
    var recs := ClockPair(t, d);
    var mid := Step(env, st, recs[0]);
    assert recs[1..] == [recs[1]];
    var r := Step(env, mid, recs[1]);
    assert Run(env, mid, recs[1..]) == r;
    if t == 0 && st.lines != [] {
      assert r == st;
      assert ShiftLines(st.lines, d)[0] == st.lines[0].(time := st.lines[0].time + d);
    } else if t == 0 {
      assert ShiftLines(st.lines, d) == st.lines || d == 0;
      if d == 0 { assert ShiftLines(st.lines, d) == st.lines; }
    }
  }

  /**
   * Setting the clock changes no accounts: the same log with a clock change put in, and all
   * later records on the new clock, gives the same sessions, line totals and user totals.
   */
  lemma {:induction false} ClockChange(env: Env, before: seq<Rec>, t: int, d: int, after: seq<Rec>)
    requires Splits(env)
    requires Run(env, Init, before).datetime == 0 && t != 0
    requires forall i :: 0 <= i < |after| ==> after[i].time > 0 && after[i].time + d > 0
    ensures var plain := Run(env, Init, before + after);
      var moved := Run(env, Init, before + ClockPair(t, d) + ShiftRecs(after, d));
      && moved.lines == ShiftLines(plain.lines, d)
      && SameSessions(plain.sessions, moved.sessions) && SameUsers(plain.users, moved.users)
      && moved.bad == plain.bad && moved.ndates == plain.ndates + 1
  {
    var st := Run(env, Init, before);
    ClockPairMoves(env, st, t, d);
    RunConcat(env, Init, before, after);
    RunConcat(env, Init, before + ClockPair(t, d), ShiftRecs(after, d));
    RunConcat(env, Init, before, ClockPair(t, d));
    RunAhead(env, st, Run(env, st, ClockPair(t, d)), d, after);
  }
}
