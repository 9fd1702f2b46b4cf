/** The connect-time program's own tables and routines. */
module AcctCon {
  import opened Utmpx
  import Spec = AcctConSpec
  import opened AcctConSpec

  /** valid: a name of portable characters that does not begin with a hyphen, and a known kind. */
  predicate ValidRec(rec: Rec) {
    && rec.kind != Invalid
    && (rec.name != "" ==> rec.name[0] != '-')
    && forall i :: 0 <= i < |rec.name| ==> IsNameChar(rec.name[i])
  }

  /** Such a name is empty, or begins with a portable character that is not a hyphen. */
  lemma {:induction false} ValidExactly(rec: Rec)
    ensures ValidRec(rec) <==>
            && rec.kind != Invalid
            && (forall i :: 0 <= i < |rec.name| ==> IsPortable(rec.name[i] as int))
            && (|rec.name| > 0 ==> rec.name[0] != '-')
  {
    forall i | 0 <= i < |rec.name| ensures IsNameChar(rec.name[i]) <==> IsPortable(rec.name[i] as int) {
      NameCharExactly(rec.name[i]);
    }
  }

  function ValidOnly(recs: seq<Rec>): seq<Rec> {
    if recs == [] then []
    else (if ValidRec(recs[0]) then [recs[0]] else []) + ValidOnly(recs[1..])
  }

  class Tables {
    const env: Env
    var tbuf: seq<Line>
    var root: seq<User>
    var datetime: int
    var ndates: nat
    var bad: nat
    ghost var sessions: seq<Session>
    ghost var blanks: seq<nat>

    constructor (e: Env)
      ensures View() == Init && env == e
    {
      env := e;
      tbuf, root, datetime, ndates, bad, sessions, blanks := [], [], 0, 0, 0, [], [];
    }

    ghost function View(): State
      reads this
    {
      State(tbuf, root, datetime, ndates, bad, sessions, blanks)
    }

    /** iline: the index of a line, entered if it is new. */
    method ILine(line: string) returns (i: nat)
      modifies this`tbuf
      ensures View() == AddLine(old(View()), line)
      ensures i == Lookup(old(tbuf), line) && i < |tbuf|
    {
      i := 0;
      while i < |tbuf|
        invariant 0 <= i <= |tbuf| && tbuf == old(tbuf)
        invariant forall j :: 0 <= j < i ==> tbuf[j].line != line
      {
        if tbuf[i].line == line {
          LookupIs(tbuf, line, i);
          return;
        }
        i := i + 1;
      }
      LookupIs(tbuf, line, i);
      tbuf := tbuf + [Line(line, "", 0, 0, 0, 0, 0)];
    }

    /** The end of a session on line i, which began at told. */
    method Finish(i: nat, told: int, tnew: int, ghost relogin: bool)
      requires i < |tbuf|
      modifies this`tbuf, this`root, this`sessions
      ensures tbuf == old(tbuf[i := tbuf[i].(name := "", total := tbuf[i].total + (tnew - told))])
      ensures root == Enter(old(root), env.uidOf(old(tbuf[i].name)), old(tbuf[i].name), env.split(told, tnew - told))
      ensures sessions == old(sessions) +
                [Session(i, old(tbuf[i].name), env.uidOf(old(tbuf[i].name)), told, tnew - told, relogin)]
    {
      var name := tbuf[i].name;
      var uid := env.uidOf(name);
      root := Enter(root, uid, name, env.split(told, tnew - told));
      sessions := sessions + [Session(i, name, uid, told, tnew - told, relogin)];
      tbuf := tbuf[i := tbuf[i].(name := "", total := tbuf[i].total + (tnew - told))];
    }

    /** update */
    method Update(i: nat, kind: Kind, name: string, tnew: int)
      requires i < |tbuf|
      modifies this
      ensures View() == Spec.Update(env, old(View()), i, kind, name, tnew)
    {
      var told := tbuf[i].time;
      if told > tnew {
        bad := bad + 1;
        tbuf := tbuf[i := tbuf[i].(time := tnew)];
        return;
      }
      tbuf := tbuf[i := tbuf[i].(time := tnew)];
      assert SetLine(View(), i, tbuf[i].(time := told)) == old(View());
      if kind == UserProcess {
        Login(i, name, told, tnew);
      } else if kind == DeadProcess {
        Logout(i, told, tnew);
      }
    }

    method Login(i: nat, name: string, told: int, tnew: int)
      requires i < |tbuf| && tbuf[i].time == tnew
      modifies this`tbuf, this`root, this`sessions, this`blanks
      ensures View() == Spec.Login(env, SetLine(old(View()), i, old(tbuf[i]).(time := told)), i, name, tnew)
    {
      tbuf := tbuf[i := tbuf[i].(sess := tbuf[i].sess + 1)];
      if tbuf[i].name != "" {
        Finish(i, told, tnew, true);
      } else {
        tbuf := tbuf[i := tbuf[i].(on := tbuf[i].on + 1)];
      }
      tbuf := tbuf[i := tbuf[i].(name := name)];
      if name == "" { blanks := blanks + [i]; }
    }

    method Logout(i: nat, told: int, tnew: int)
      requires i < |tbuf| && tbuf[i].time == tnew
      modifies this`tbuf, this`root, this`sessions
      ensures View() == Spec.Logout(env, SetLine(old(View()), i, old(tbuf[i]).(time := told)), i, tnew)
    {
      tbuf := tbuf[i := tbuf[i].(off := tbuf[i].off + 1)];
      if tbuf[i].name != "" { Finish(i, told, tnew, false); }
    }

    /** upall: a reboot ends every session. */
    method UpAll(time: int)
      modifies this
      ensures View() == UpFrom(env, old(View()), 0, time)
    {
      var i := 0;
      while i < |tbuf|
        invariant UpFrom(env, old(View()), 0, time) == UpFrom(env, View(), i, time)
        decreases |tbuf| - i
      {
        Update(i, DeadProcess, "", time);
        i := i + 1;
      }
    }

    /** The clock moved by timediff. */
    method MoveClock(timediff: int)
      modifies this`tbuf
      ensures tbuf == ShiftLines(old(tbuf), timediff)
    {
      var i := 0;
      while i < |tbuf|
        invariant |tbuf| == |old(tbuf)| && 0 <= i <= |tbuf|
        invariant forall j :: 0 <= j < i ==> tbuf[j] == ShiftLines(old(tbuf), timediff)[j]
        invariant forall j :: i <= j < |tbuf| ==> tbuf[j] == old(tbuf)[j]
      {
        tbuf := tbuf[i := tbuf[i].(time := tbuf[i].time + timediff)];
        i := i + 1;
      }
    }

    /** loop */
    method Loop(rec: Rec)
      modifies this
      ensures View() == Step(env, old(View()), rec)
    {
      if rec.line == "" { return; }
      match rec.kind
      case OldTime => datetime := rec.time;
      case NewTime =>
        if datetime == 0 { return; }
        MoveClock(rec.time - datetime);
        datetime, ndates := 0, ndates + 1;
      case BootTime => UpAll(rec.time);
      case UserProcess | LoginProcess | InitProcess | DeadProcess =>
        var i := ILine(rec.line);
        Update(i, rec.kind, rec.name, rec.time);
      case _ =>
    }

    /** valid */
    method CheckRec(rec: Rec) returns (ok: bool)
      ensures ok == ValidRec(rec)
    {
      if |rec.name| > 0 && rec.name[0] == '-' { return false; }
      for i := 0 to |rec.name|
        invariant forall j :: 0 <= j < i ==> IsNameChar(rec.name[j])
      {
        if !IsNameChar(rec.name[i]) { return false; }
      }
      ok := rec.kind != Invalid;
    }

    /** The reading loop: invalid records are skipped. */
    method Read(recs: seq<Rec>)
      modifies this
      ensures View() == Run(env, old(View()), ValidOnly(recs))
    {
      var i := 0;
      while i < |recs|
        invariant 0 <= i <= |recs|
        invariant Run(env, old(View()), ValidOnly(recs)) == Run(env, View(), ValidOnly(recs[i..]))
      {
        var rest := recs[i..];
        assert rest[1..] == recs[i + 1..];
        var ok := CheckRec(recs[i]);
        if ok {
          assert ValidOnly(rest)[1..] == ValidOnly(recs[i + 1..]);
          Loop(recs[i]);
        } else {
          assert ValidOnly(rest) == ValidOnly(recs[i + 1..]);
        }
        i := i + 1;
      }
    }
  }

  lemma {:induction false} LookupIs(lines: seq<Line>, line: string, i: nat)
    requires i <= |lines|
    requires forall j :: 0 <= j < i ==> lines[j].line != line
    requires i < |lines| ==> lines[i].line == line
    ensures Lookup(lines, line) == i
  {
    var k := Lookup(lines, line);
    assert !(k < i) && !(i < k);
  }
}
