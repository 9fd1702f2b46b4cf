/**
 * Connect-time accounting: what one wtmpx record does to the table of terminal lines and
 * to the totals per user, and what holds over every run.
 */
module AcctConSpec {
  import opened Utmpx

  /** One terminal line; a non-empty name is a user logged in since time. */
  datatype Line = Line(line: string, name: string, time: int, sess: nat, on: nat, off: nat, total: int)

  /** Totals of one user: prime and non-prime connect time, and sessions. */
  datatype User = User(uid: int, name: string, prime: int, nonprime: int, sess: nat)

  /** A finished session, by index of its line; relogin says that another login ended it. */
  datatype Session = Session(line: nat, name: string, uid: int, start: int, time: int, relogin: bool)

  /** The user database and the division of an interval into prime and non-prime time. */
  datatype Env = Env(uidOf: string -> int, split: (int, int) -> (int, int))

  ghost predicate Splits(env: Env) {
    forall start, time :: time >= 0 ==> env.split(start, time).0 + env.split(start, time).1 == time
  }

  /**
   * The program's tables; users are in order of uid.  The last two fields record what was
   * done: the finished sessions, and the lines on which a login without a name was accepted.
   */
  datatype State = State(
    lines: seq<Line>, users: seq<User>, datetime: int, ndates: nat, bad: nat,
    sessions: seq<Session>, blanks: seq<nat>)

  const Init := State([], [], 0, 0, 0, [], [])

  // ---- One record ----

  /** enter: add a session to the totals of its user. */
  function Enter(users: seq<User>, uid: int, name: string, con: (int, int)): seq<User> {
    if users == [] || uid < users[0].uid then [User(uid, name, con.0, con.1, 1)] + users
    else if uid == users[0].uid then
      var u := users[0];
      [User(u.uid, u.name, u.prime + con.0, u.nonprime + con.1, u.sess + 1)] + users[1..]
    else [users[0]] + Enter(users[1..], uid, name, con)
  }

  /** The user on line i leaves, at a time not before they came. */
  function Finish(env: Env, st: State, i: nat, time: int, relogin: bool): State
    requires i < |st.lines|
  {
    var l := st.lines[i];
    var uid := env.uidOf(l.name);
    st.(users := Enter(st.users, uid, l.name, env.split(l.time, time - l.time)),
        sessions := st.sessions + [Session(i, l.name, uid, l.time, time - l.time, relogin)],
        lines := st.lines[i := l.(name := "", total := l.total + (time - l.time))])
  }

  function SetLine(st: State, i: nat, l: Line): State
    requires i < |st.lines|
  {
    st.(lines := st.lines[i := l])
  }

  /** A login on line i. */
  function Login(env: Env, st: State, i: nat, name: string, time: int): State
    requires i < |st.lines|
  {
    var busy := st.lines[i].name != "";
    var st1 := if busy then Finish(env, st, i, time, true) else st;
    var l := st1.lines[i];
    SetLine(st1, i, l.(sess := l.sess + 1, on := if busy then l.on else l.on + 1, name := name, time := time))
      .(blanks := if name == "" then st.blanks + [i] else st.blanks)
  }

  function Logout(env: Env, st: State, i: nat, time: int): State
    requires i < |st.lines|
  {
    var st1 := if st.lines[i].name != "" then Finish(env, st, i, time, false) else st;
    var l := st1.lines[i];
    SetLine(st1, i, l.(off := l.off + 1, time := time))
  }

  /** update */
  function Update(env: Env, st: State, i: nat, kind: Kind, name: string, time: int): (r: State)
    requires i < |st.lines|
    ensures |r.lines| == |st.lines|
  {
    if st.lines[i].time > time then SetLine(st, i, st.lines[i].(time := time)).(bad := st.bad + 1)
    else if kind == UserProcess then Login(env, st, i, name, time)
    else if kind == DeadProcess then Logout(env, st, i, time)
    else SetLine(st, i, st.lines[i].(time := time))
  }

  /** upall, from line i on. */
  function UpFrom(env: Env, st: State, i: nat, time: int): State
    decreases |st.lines| - i
  {
    if i >= |st.lines| then st else UpFrom(env, Update(env, st, i, DeadProcess, "", time), i + 1, time)
  }

  function Lookup(lines: seq<Line>, line: string): (i: nat)
    ensures i <= |lines|
    ensures forall j :: 0 <= j < i ==> lines[j].line != line
    ensures i < |lines| ==> lines[i].line == line
  {
    if lines == [] || lines[0].line == line then 0 else 1 + Lookup(lines[1..], line)
  }

  /** iline: a new line starts empty at time 0. */
  function AddLine(st: State, line: string): State {
    if Lookup(st.lines, line) < |st.lines| then st
    else st.(lines := st.lines + [Line(line, "", 0, 0, 0, 0, 0)])
  }

  function ShiftLines(lines: seq<Line>, d: int): (r: seq<Line>)
    ensures |r| == |lines|
  {
    seq(|lines|, i requires 0 <= i < |lines| => lines[i].(time := lines[i].time + d))
  }

  /** loop: one record. */
  function Step(env: Env, st: State, rec: Rec): State {
    if rec.line == "" then st
    else
      match rec.kind
      case OldTime => st.(datetime := rec.time)
      case NewTime =>
        if st.datetime == 0 then st
        else st.(lines := ShiftLines(st.lines, rec.time - st.datetime), datetime := 0, ndates := st.ndates + 1)
      case BootTime => UpFrom(env, st, 0, rec.time)
      case UserProcess => Touch(env, st, rec)
      case LoginProcess => Touch(env, st, rec)
      case InitProcess => Touch(env, st, rec)
      case DeadProcess => Touch(env, st, rec)
      case _ => st
  }

  function Touch(env: Env, st: State, rec: Rec): State {
    Update(env, AddLine(st, rec.line), Lookup(st.lines, rec.line), rec.kind, rec.name, rec.time)
  }

  function Run(env: Env, st: State, recs: seq<Rec>): State
    decreases |recs|
  {
    if recs == [] then st else Run(env, Step(env, st, recs[0]), recs[1..])
  }

  lemma {:induction false} RunConcat(env: Env, st: State, a: seq<Rec>, b: seq<Rec>)
    ensures Run(env, st, a + b) == Run(env, Run(env, st, a), b)
    decreases |a|
  {
    if a == [] {
      assert a + b == b;
    } else {
      assert (a + b)[1..] == a[1..] + b;
      RunConcat(env, Step(env, st, a[0]), a[1..], b);
    }
  }

  // ---- The books balance ----

  function TimeOn(sessions: seq<Session>, i: nat): int {
    if sessions == [] then 0
    else TimeOn(sessions[..|sessions| - 1], i) +
         (var s := sessions[|sessions| - 1]; if s.line == i then s.time else 0)
  }

  function CountOn(sessions: seq<Session>, i: nat): nat {
    if sessions == [] then 0
    else CountOn(sessions[..|sessions| - 1], i) + (if sessions[|sessions| - 1].line == i then 1 else 0)
  }

  function ReloginsOn(sessions: seq<Session>, i: nat): nat {
    if sessions == [] then 0
    else ReloginsOn(sessions[..|sessions| - 1], i) +
         (var s := sessions[|sessions| - 1]; if s.line == i && s.relogin then 1 else 0)
  }

  function TimeOf(sessions: seq<Session>, uid: int): int {
    if sessions == [] then 0
    else TimeOf(sessions[..|sessions| - 1], uid) +
         (var s := sessions[|sessions| - 1]; if s.uid == uid then s.time else 0)
  }

  function CountOf(sessions: seq<Session>, uid: int): nat {
    if sessions == [] then 0
    else CountOf(sessions[..|sessions| - 1], uid) + (if sessions[|sessions| - 1].uid == uid then 1 else 0)
  }

  function AllTime(sessions: seq<Session>): int {
    if sessions == [] then 0 else AllTime(sessions[..|sessions| - 1]) + sessions[|sessions| - 1].time
  }

  function Occurs(xs: seq<nat>, i: nat): nat {
    if xs == [] then 0 else Occurs(xs[..|xs| - 1], i) + (if xs[|xs| - 1] == i then 1 else 0)
  }

  function LinesTotal(lines: seq<Line>): int {
    if lines == [] then 0 else lines[0].total + LinesTotal(lines[1..])
  }

  function UsersTotal(users: seq<User>): int {
    if users == [] then 0 else users[0].prime + users[0].nonprime + UsersTotal(users[1..])
  }

  /** Prime and non-prime connect time entered for a uid. */
  function UserPrime(users: seq<User>, uid: int): int {
    if users == [] then 0 else (if users[0].uid == uid then users[0].prime else 0) + UserPrime(users[1..], uid)
  }

  function UserNonprime(users: seq<User>, uid: int): int {
    if users == [] then 0 else (if users[0].uid == uid then users[0].nonprime else 0) + UserNonprime(users[1..], uid)
  }

  /** Connect time and sessions entered for a uid. */
  function UserTime(users: seq<User>, uid: int): int {
    UserPrime(users, uid) + UserNonprime(users, uid)
  }

  function UserCount(users: seq<User>, uid: int): nat {
    if users == [] then 0
    else (if users[0].uid == uid then users[0].sess else 0) + UserCount(users[1..], uid)
  }

  predicate Sorted(users: seq<User>) {
    forall i, j :: 0 <= i < j < |users| ==> users[i].uid < users[j].uid
  }

  /** Each line's and each user's totals are those of the finished sessions. */
  ghost predicate Balanced(st: State) {
    && (forall i :: 0 <= i < |st.lines| ==> LineBalanced(st, i))
    && (forall i :: i >= |st.lines| ==> LineUnused(st, i))
    && Sorted(st.users)
    && (forall uid :: UserBalanced(st, uid))
    && LinesTotal(st.lines) == AllTime(st.sessions) == UsersTotal(st.users)
  }

  /**
   * A login with a name is a finished session or the current one.  A login either finds the
   * line free or ends a session, and every other session was ended by a logout.
   */
  predicate LineBalanced(st: State, i: nat)
    requires i < |st.lines|
  {
    var l := st.lines[i];
    && l.total == TimeOn(st.sessions, i)
    && l.sess == CountOn(st.sessions, i) + Occurs(st.blanks, i) + (if l.name != "" then 1 else 0)
    && l.sess == l.on + ReloginsOn(st.sessions, i)
    && CountOn(st.sessions, i) <= ReloginsOn(st.sessions, i) + l.off
  }

  predicate LineUnused(st: State, i: nat) {
    TimeOn(st.sessions, i) == 0 && CountOn(st.sessions, i) == 0 && ReloginsOn(st.sessions, i) == 0 &&
    Occurs(st.blanks, i) == 0
  }

  predicate UserBalanced(st: State, uid: int) {
    UserTime(st.users, uid) == TimeOf(st.sessions, uid) && UserCount(st.users, uid) == CountOf(st.sessions, uid)
  }
}
