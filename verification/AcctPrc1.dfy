/** Guessing the login name of a process from an index of sessions sorted by user. */
module AcctPrc1 {
  import opened Options

  const A_USIZE := 2001
  const A_SSIZE := 6001

  /** A session record; con is its prime and non-prime time. */
  datatype Ctmp = Ctmp(tty: int, uid: int, name: string, con: (int, int), start: int)

  datatype Urec = Urec(uid: int, name: string, first: nat, cnt: nat)
  datatype Srec = Srec(tty: int, start: int, end: int)

  function End(r: Ctmp): int {
    r.start + r.con.0 + r.con.1
  }

  function SessionOf(r: Ctmp): Srec {
    Srec(r.tty, r.start, End(r))
  }

  // ---- The guess, by looking at every session ----

  predicate Matches(r: Ctmp, uid: int, tty: int) {
    r.uid == uid && r.tty == tty
  }

  /** The session contains the starting time. */
  predicate Contains(r: Ctmp, uid: int, tty: int, start: int) {
    Matches(r, uid, tty) && r.start <= start <= End(r)
  }

  /** From the second it begins to the second it ends, prime and non-prime time together, and no longer. */
  lemma {:induction false} ContainsEdges(r: Ctmp, uid: int, tty: int, start: int)
    requires r.con.0 >= 0 && r.con.1 >= 0
    ensures Contains(r, uid, tty, start) ==> uid == r.uid && tty == r.tty
    ensures Contains(r, r.uid, r.tty, r.start) && Contains(r, r.uid, r.tty, r.start + (r.con.0 + r.con.1))
    ensures !Contains(r, r.uid, r.tty, r.start - 1) && !Contains(r, r.uid, r.tty, r.start + (r.con.0 + r.con.1) + 1)
  {}

  /** The session began by then. */
  predicate Began(r: Ctmp, uid: int, tty: int, start: int) {
    Matches(r, uid, tty) && r.start <= start
  }

  /** The program remembers only sessions that end after time 0. */
  predicate Noted(r: Ctmp, uid: int, tty: int, start: int) {
    Began(r, uid, tty, start) && End(r) > 0
  }

  ghost predicate FirstContaining(recs: seq<Ctmp>, uid: int, tty: int, start: int, i: nat) {
    && i < |recs| && Contains(recs[i], uid, tty, start)
    && forall j :: 0 <= j < i ==> !Contains(recs[j], uid, tty, start)
  }

  /** The first of the latest-ending sessions among recs[..n] that had begun. */
  ghost predicate LatestBegun(recs: seq<Ctmp>, n: nat, uid: int, tty: int, start: int, i: nat) {
    && i < n <= |recs| && Began(recs[i], uid, tty, start)
    && forall j :: 0 <= j < n && Began(recs[j], uid, tty, start) ==>
         End(recs[j]) <= End(recs[i]) && (j < i ==> End(recs[j]) < End(recs[i]))
  }

  /** The answer of an exhaustive search. */
  ghost predicate IsGuess(recs: seq<Ctmp>, uid: int, tty: int, start: int, r: Option<string>) {
    if exists i: nat :: FirstContaining(recs, uid, tty, start, i) then
      exists i: nat :: FirstContaining(recs, uid, tty, start, i) && r == Some(recs[i].name)
    else if exists i: nat :: LatestBegun(recs, |recs|, uid, tty, start, i) then
      exists i: nat :: LatestBegun(recs, |recs|, uid, tty, start, i) && r == Some(recs[i].name)
    else r == None
  }

  /** The latest-ending session among recs[..n] that had begun, if it ended after time 0. */
  ghost predicate LatestNoted(recs: seq<Ctmp>, n: nat, uid: int, tty: int, start: int, i: nat) {
    LatestBegun(recs, n, uid, tty, start, i) && End(recs[i]) > 0
  }

  /** The answer of the program: as the guess, but of the sessions it notes. */
  ghost predicate IsAnswer(recs: seq<Ctmp>, uid: int, tty: int, start: int, r: Option<string>) {
    if exists i: nat :: FirstContaining(recs, uid, tty, start, i) then
      exists i: nat :: FirstContaining(recs, uid, tty, start, i) && r == Some(recs[i].name)
    else if exists i: nat :: LatestNoted(recs, |recs|, uid, tty, start, i) then
      exists i: nat :: LatestNoted(recs, |recs|, uid, tty, start, i) && r == Some(recs[i].name)
    else r == None
  }

  /** Somebody of this uid was on the terminal by then, but had left by time 0. */
  ghost predicate IsForgotten(recs: seq<Ctmp>, uid: int, tty: int, start: int) {
    && (forall i :: 0 <= i < |recs| ==> !Contains(recs[i], uid, tty, start))
    && exists i: nat :: LatestBegun(recs, |recs|, uid, tty, start, i) && End(recs[i]) <= 0
  }

  /** The exhaustive search has one answer. */
  lemma {:induction false} GuessUnique(recs: seq<Ctmp>, uid: int, tty: int, start: int, a: Option<string>,
                                       b: Option<string>)
    requires IsGuess(recs, uid, tty, start, a) && IsGuess(recs, uid, tty, start, b)
    ensures a == b
  {
    if k: nat :| FirstContaining(recs, uid, tty, start, k) {
      var i: nat :| FirstContaining(recs, uid, tty, start, i) && a == Some(recs[i].name);
      var j: nat :| FirstContaining(recs, uid, tty, start, j) && b == Some(recs[j].name);
      assert !(i < j) && !(j < i);
    } else if k: nat :| LatestBegun(recs, |recs|, uid, tty, start, k) {
      var i: nat :| LatestBegun(recs, |recs|, uid, tty, start, i) && a == Some(recs[i].name);
      var j: nat :| LatestBegun(recs, |recs|, uid, tty, start, j) && b == Some(recs[j].name);
      assert !(i < j) && !(j < i);
    }
  }

  predicate SortedByUid(recs: seq<Ctmp>) {
    forall i, j :: 0 <= i < j < |recs| ==> recs[i].uid <= recs[j].uid
  }

  // ---- The index ----

  /** Entry u of the index covers the sessions recs[first..first + cnt]. */
  predicate Covers(u: Urec, recs: seq<Ctmp>) {
    && u.first + u.cnt <= |recs|
    && forall i :: u.first <= i < u.first + u.cnt ==> recs[i].uid == u.uid && recs[i].name == u.name
  }

  /** Entries 1 to last - 1 cover all the sessions, one after the other; entry 0 is blank. */
  ghost predicate Indexes(ur: seq<Urec>, sr: seq<Srec>, last: nat, recs: seq<Ctmp>) {
    && 1 <= last <= |ur| && |recs| <= |sr|
    && ur[0].uid == 0 && ur[0].cnt == 0
    && (forall u :: 1 <= u < last ==> Covers(ur[u], recs) && ur[u].cnt > 0)
    && (forall u :: 1 <= u < last ==> ur[u].first + ur[u].cnt == FirstAfter(ur, last, u, recs))
    && FirstAfter(ur, last, 0, recs) == 0
    && forall i :: 0 <= i < |recs| ==> sr[i] == SessionOf(recs[i])
  }

  function FirstAfter(ur: seq<Urec>, last: nat, u: nat, recs: seq<Ctmp>): nat
    requires u < last <= |ur|
  {
    if u + 1 < last then ur[u + 1].first else |recs|
  }

  lemma {:induction false} CoversMore(u: Urec, recs: seq<Ctmp>, cb: Ctmp)
    requires Covers(u, recs)
    ensures Covers(u, recs + [cb])
  {
    assert forall i :: 0 <= i < |recs| ==> (recs + [cb])[i] == recs[i];
  }

  /** One more session of the last user. */
  lemma {:induction false} IndexesSame(ur: seq<Urec>, sr: seq<Srec>, last: nat, recs: seq<Ctmp>, cb: Ctmp)
    requires Indexes(ur, sr, last, recs) && 1 < last && |recs| < |sr|
    requires ur[last - 1].uid == cb.uid && ur[last - 1].name == cb.name
    ensures Indexes(ur[last - 1 := ur[last - 1].(cnt := ur[last - 1].cnt + 1)], sr[|recs| := SessionOf(cb)],
                    last, recs + [cb])
  {
    var u := ur[last - 1].(cnt := ur[last - 1].cnt + 1);
    var after := ur[last - 1 := u];
    assert Covers(ur[last - 1], recs) && ur[last - 1].first + ur[last - 1].cnt == |recs|;
    CoversMore(ur[last - 1], recs, cb);
    assert Covers(u, recs + [cb]);
    forall v | 1 <= v < last
      ensures Covers(after[v], recs + [cb]) && after[v].first + after[v].cnt == FirstAfter(after, last, v, recs + [cb])
    {
      if v < last - 1 {
        CoversMore(ur[v], recs, cb);
        assert ur[v].first + ur[v].cnt == FirstAfter(ur, last, v, recs);
      }
    }
  }

  /** A session of a new user. */
  lemma {:induction false} IndexesNew(ur: seq<Urec>, sr: seq<Srec>, last: nat, recs: seq<Ctmp>, cb: Ctmp)
    requires Indexes(ur, sr, last, recs) && last < |ur| && |recs| < |sr|
    ensures Indexes(ur[last := Urec(cb.uid, cb.name, |recs|, 1)], sr[|recs| := SessionOf(cb)],
                    last + 1, recs + [cb])
  {
    var u := Urec(cb.uid, cb.name, |recs|, 1);
    var after := ur[last := u];
    assert Covers(u, recs + [cb]);
    forall v | 1 <= v < last + 1
      ensures Covers(after[v], recs + [cb])
      ensures after[v].first + after[v].cnt == FirstAfter(after, last + 1, v, recs + [cb])
    {
      if v < last {
        CoversMore(ur[v], recs, cb);
        assert ur[v].first + ur[v].cnt == FirstAfter(ur, last, v, recs);
      }
    }
  }

  /** The session does not belong to the user of the last one. */
  predicate StartsRun(recs: seq<Ctmp>, cb: Ctmp) {
    recs == [] || recs[|recs| - 1].uid != cb.uid || recs[|recs| - 1].name != cb.name
  }

  /** The number of changes from one user to the next, which is that of the entries needed. */
  function Runs(recs: seq<Ctmp>): nat {
    if recs == [] then 0
    else
      var front := recs[..|recs| - 1];
      Runs(front) + if StartsRun(front, recs[|recs| - 1]) then 1 else 0
  }

  lemma {:induction false} RunsAdd(recs: seq<Ctmp>, cb: Ctmp)
    ensures Runs(recs + [cb]) == Runs(recs) + if StartsRun(recs, cb) then 1 else 0
  {
    assert (recs + [cb])[..|recs|] == recs;
  }

  lemma {:induction false} RunsGrow(recs: seq<Ctmp>, n: nat)
    requires n <= |recs|
    ensures Runs(recs[..n]) <= Runs(recs)
    decreases |recs| - n
  {
    if n < |recs| {
      RunsAdd(recs[..n], recs[n]);
      assert recs[..n] + [recs[n]] == recs[..n + 1];
      RunsGrow(recs, n + 1);
    } else {
      assert recs[..n] == recs;
    }
  }

  predicate IsPrefix(done: seq<Ctmp>, recs: seq<Ctmp>, n: nat) {
    n == |done| <= |recs| && done == recs[..n]
  }

  /** One session more; what does not fit then does not fit in the end. */
  lemma {:induction false} PrefixNext(done: seq<Ctmp>, recs: seq<Ctmp>, n: nat)
    requires IsPrefix(done, recs, n) && n < |recs|
    ensures IsPrefix(done + [recs[n]], recs, n + 1)
    ensures Fits(recs) ==> Fits(done + [recs[n]])
  {
    assert done + [recs[n]] == recs[..n + 1];
    RunsGrow(recs, n + 1);
  }

  lemma {:induction false} PrefixAll(done: seq<Ctmp>, recs: seq<Ctmp>)
    requires IsPrefix(done, recs, |recs|)
    ensures done == recs
  {}

  /** The tables hold these sessions and their users. */
  predicate Fits(recs: seq<Ctmp>) {
    |recs| < A_SSIZE && Runs(recs) < A_USIZE
  }

  lemma {:induction false} FitsExactly(recs: seq<Ctmp>)
    ensures Fits(recs) <==> |recs| <= 6000 && Runs(recs) <= 2000
  {}

  /** What a scan of recs[..n] remembers: the latest-ending session that had begun. */
  ghost predicate Remembers(recs: seq<Ctmp>, n: nat, uid: int, tty: int, start: int, latest: int,
                            guess: Option<string>) {
    && n <= |recs|
    && (forall j :: 0 <= j < n ==> !Contains(recs[j], uid, tty, start))
    && match guess
       case None => latest == 0 && forall j :: 0 <= j < n ==> !Noted(recs[j], uid, tty, start)
       case Some(name) =>
         exists k: nat :: LatestNoted(recs, n, uid, tty, start, k) && name == recs[k].name && latest == End(recs[k])
  }

  /** Sessions of other users, or on other terminals, are passed over. */
  lemma {:induction false} RemembersSkip(recs: seq<Ctmp>, n: nat, m: nat, uid: int, tty: int, start: int,
                                         latest: int, guess: Option<string>)
    requires Remembers(recs, n, uid, tty, start, latest, guess) && n <= m <= |recs|
    requires forall j :: n <= j < m ==> !Contains(recs[j], uid, tty, start) && !Began(recs[j], uid, tty, start)
    ensures Remembers(recs, m, uid, tty, start, latest, guess)
  {
    if guess.Some? {
      var k: nat :| LatestNoted(recs, n, uid, tty, start, k) && guess.value == recs[k].name && latest == End(recs[k]);
      assert LatestNoted(recs, m, uid, tty, start, k);
    }
  }

  /** One more session that had begun and ended. */
  lemma {:induction false} RemembersNext(recs: seq<Ctmp>, n: nat, uid: int, tty: int, start: int,
                                         latest: int, guess: Option<string>)
    requires Remembers(recs, n, uid, tty, start, latest, guess) && n < |recs|
    requires !Contains(recs[n], uid, tty, start) && Matches(recs[n], uid, tty) && recs[n].start <= start
    ensures if End(recs[n]) > latest
            then Remembers(recs, n + 1, uid, tty, start, End(recs[n]), Some(recs[n].name))
            else Remembers(recs, n + 1, uid, tty, start, latest, guess)
  {
    if guess.Some? {
      var k: nat :| LatestNoted(recs, n, uid, tty, start, k) && guess.value == recs[k].name && latest == End(recs[k]);
      assert LatestNoted(recs, n + 1, uid, tty, start, if End(recs[n]) > latest then n else k);
    } else if End(recs[n]) > latest {
      assert LatestNoted(recs, n + 1, uid, tty, start, n);
    }
  }

  lemma {:induction false} RememberedIsAnswer(recs: seq<Ctmp>, uid: int, tty: int, start: int, latest: int,
                                              guess: Option<string>)
    requires Remembers(recs, |recs|, uid, tty, start, latest, guess)
    ensures IsAnswer(recs, uid, tty, start, guess)
  {}

  /** The program's answer is the guess exactly if nobody is forgotten. */
  lemma {:induction false} AnswerIsGuess(recs: seq<Ctmp>, uid: int, tty: int, start: int, r: Option<string>)
    requires IsAnswer(recs, uid, tty, start, r)
    ensures IsGuess(recs, uid, tty, start, r) <==> !IsForgotten(recs, uid, tty, start)
  {
    if IsForgotten(recs, uid, tty, start) {
      var k: nat :| LatestBegun(recs, |recs|, uid, tty, start, k) && End(recs[k]) <= 0;
      assert forall i: nat :: !LatestNoted(recs, |recs|, uid, tty, start, i);
      assert r == None;
    } else if exists i :: 0 <= i < |recs| && Contains(recs[i], uid, tty, start) {
      var i :| 0 <= i < |recs| && Contains(recs[i], uid, tty, start);
      FirstExists(recs, uid, tty, start, i);
    } else if i: nat :| LatestBegun(recs, |recs|, uid, tty, start, i) {
      assert LatestNoted(recs, |recs|, uid, tty, start, i);
    }
  }

  lemma {:induction false} FirstExists(recs: seq<Ctmp>, uid: int, tty: int, start: int, i: nat)
    requires i < |recs| && Contains(recs[i], uid, tty, start)
    ensures exists j: nat :: FirstContaining(recs, uid, tty, start, j)
    decreases i
  {
    if j: nat :| j < i && Contains(recs[j], uid, tty, start) {
      FirstExists(recs, uid, tty, start, j);
    } else {
      assert FirstContaining(recs, uid, tty, start, i);
    }
  }

  lemma {:induction false} LatestExists(recs: seq<Ctmp>, n: nat, uid: int, tty: int, start: int, i: nat)
    requires i < n <= |recs| && Began(recs[i], uid, tty, start)
    ensures exists k: nat :: LatestBegun(recs, n, uid, tty, start, k)
    decreases n
  {
    var m := n - 1;
    if j: nat :| j < m && Began(recs[j], uid, tty, start) {
      LatestExists(recs, m, uid, tty, start, j);
      var k: nat :| LatestBegun(recs, m, uid, tty, start, k);
      var better := Began(recs[m], uid, tty, start) && End(recs[m]) > End(recs[k]);
      assert LatestBegun(recs, n, uid, tty, start, if better then m else k);
    } else {
      assert LatestBegun(recs, n, uid, tty, start, m);
    }
  }

  /** No answer, which is all that a negative uid gets, is the guess exactly if no session had begun. */
  lemma {:induction false} NoneIsGuess(recs: seq<Ctmp>, uid: int, tty: int, start: int)
    ensures IsGuess(recs, uid, tty, start, None) <==> forall i :: 0 <= i < |recs| ==> !Began(recs[i], uid, tty, start)
  {
    if i: nat :| i < |recs| && Began(recs[i], uid, tty, start) {
      LatestExists(recs, |recs|, uid, tty, start, i);
    }
  }

  /** A session of one second that ended at time 0, and a process that started at 5. */
  lemma {:induction false} ForgottenExample()
    ensures IsForgotten([Ctmp(1, 7, "bob", (1, 0), -1)], 7, 1, 5)
  {
    assert LatestBegun([Ctmp(1, 7, "bob", (1, 0), -1)], 1, 7, 1, 5, 0);
  }

  /** A user with a negative uid, on the terminal when the process started. */
  lemma {:induction false} NegativeExample()
    ensures IsGuess([Ctmp(1, -2, "nobody", (10, 0), 1)], -2, 1, 5, Some("nobody"))
  {
    assert FirstContaining([Ctmp(1, -2, "nobody", (10, 0), 1)], -2, 1, 5, 0);
  }

  class Index {
    const ur: array<Urec>
    const sr: array<Srec>
    var urlast: nat

    constructor ()
      ensures Valid() && urlast == 0 && fresh(ur) && fresh(sr)
    {
      ur := new Urec[A_USIZE](_ => Urec(0, "", 0, 0));
      sr := new Srec[A_SSIZE](_ => Srec(0, 0, 0));
      urlast := 0;
    }

    ghost predicate Valid()
      reads this, ur
    {
      ur.Length == A_USIZE && sr.Length == A_SSIZE && urlast <= ur.Length && ur[0] == Urec(0, "", 0, 0)
    }

    /** The sessions done are indexed; up is the last entry in use, or -1. */
    ghost predicate Reading(up: int, done: seq<Ctmp>)
      reads this, ur, sr
    {
      && Valid() && IsCursor(up) && |done| < A_SSIZE && (done == [] <==> up == -1)
      && Used(up) == 1 + Runs(done) && Indexes(ur[..], sr[..], Used(up), done)
    }

    /** readctmp: false exactly where the program would enlarge its tables. */
    method ReadCtmp(recs: seq<Ctmp>) returns (ok: bool)
      requires Valid()
      modifies this`urlast, ur, sr
      ensures Valid() && ok == Fits(recs)
      ensures ok && recs == [] ==> ur[..] == old(ur[..]) && sr[..] == old(sr[..]) && urlast == old(urlast)
      ensures ok && recs != [] ==> Indexes(ur[..], sr[..], urlast, recs)
    {
      if |recs| == 0 { return true; }
      var up;
      up, ok := ReadAll(recs);
      if ok { urlast := up + 1; }
    }

    method ReadAll(recs: seq<Ctmp>) returns (up: int, ok: bool)
      requires Valid() && recs != []
      modifies ur, sr
      ensures Valid() && ok == Fits(recs) && (ok ==> Reading(up, recs))
    {
      up := -1;
      var sp := 0;
      ghost var done: seq<Ctmp> := [];
      while sp < |recs|
        invariant 0 <= sp <= |recs| && IsPrefix(done, recs, sp) && Reading(up, done)
      {
        PrefixNext(done, recs, sp);
        up, ok := AddSession(up, sp, recs[sp], done);
        if !ok { return; }
        done := done + [recs[sp]];
        sp := sp + 1;
      }
      PrefixAll(done, recs);
      ok := true;
    }

    /** The sessions of one index entry: the answer, if one contains the starting time. */
    method ScanUser(u: Urec, uid: int, tty: int, start: int, latest0: int, guess0: Option<string>,
                    ghost recs: seq<Ctmp>)
      returns (found: bool, latest: int, guess: Option<string>)
      requires Valid() && |recs| <= sr.Length && Covers(u, recs) && u.uid == uid
      requires forall i :: 0 <= i < |recs| ==> sr[i] == SessionOf(recs[i])
      requires Remembers(recs, u.first, uid, tty, start, latest0, guess0)
      ensures found ==> IsAnswer(recs, uid, tty, start, Some(u.name))
      ensures !found ==> Remembers(recs, u.first + u.cnt, uid, tty, start, latest, guess)
    {
      latest, guess := latest0, guess0;
      for sp := u.first to u.first + u.cnt
        invariant Remembers(recs, sp, uid, tty, start, latest, guess)
      {
        if tty == sr[sp].tty && start >= sr[sp].start {
          if start <= sr[sp].end {
            assert FirstContaining(recs, uid, tty, start, sp);
            return true, latest, guess;
          }
          RemembersNext(recs, sp, uid, tty, start, latest, guess);
          if sr[sp].end > latest { latest, guess := sr[sp].end, Some(u.name); }
        } else {
          RemembersSkip(recs, sp, sp + 1, uid, tty, start, latest, guess);
        }
      }
      found := false;
    }

    /** getnamc: the search stops at the first greater uid, and loses nothing by it. */
    method GetNamc(uid: int, tty: int, start: int, ghost recs: seq<Ctmp>) returns (r: Option<string>)
      requires Valid() && SortedByUid(recs)
      requires if urlast == 0 then recs == [] else Indexes(ur[..], sr[..], urlast, recs)
      ensures uid >= 0 ==> IsAnswer(recs, uid, tty, start, r)
      ensures uid < 0 ==> r == None
    {
      var latest, up := 0, 0;
      r := None;
      while up < urlast && uid >= ur[up].uid
        invariant 0 <= up <= urlast && (uid < 0 ==> up == 0 && r == None)
        invariant Remembers(recs, if up == 0 then 0 else FirstAfter(ur[..], urlast, up - 1, recs), uid, tty, start,
                            latest, r)
        decreases urlast - up
      {
        if up > 0 {
          var found;
          found, latest, r := Visit(up, uid, tty, start, latest, r, recs);
          if found { return Some(ur[up].name); }
        }
        up := up + 1;
      }
      if uid >= 0 {
        Stopped(up, uid, tty, start, latest, r, recs);
        RememberedIsAnswer(recs, uid, tty, start, latest, r);
      }
    }

    /** One entry of the index. */
    method Visit(up: nat, uid: int, tty: int, start: int, latest0: int, guess0: Option<string>, ghost recs: seq<Ctmp>)
      returns (found: bool, latest: int, guess: Option<string>)
      requires Valid() && 1 <= up < urlast && Indexes(ur[..], sr[..], urlast, recs)
      requires Remembers(recs, FirstAfter(ur[..], urlast, up - 1, recs), uid, tty, start, latest0, guess0)
      ensures found ==> IsAnswer(recs, uid, tty, start, Some(ur[up].name))
      ensures !found ==> Remembers(recs, FirstAfter(ur[..], urlast, up, recs), uid, tty, start, latest, guess)
    {
      assert Covers(ur[..][up], recs) && ur[..][up].first + ur[..][up].cnt == FirstAfter(ur[..], urlast, up, recs);
      found, latest, guess := false, latest0, guess0;
      if uid == ur[up].uid {
        assert forall i :: 0 <= i < |recs| ==> sr[..][i] == SessionOf(recs[i]);
        found, latest, guess := ScanUser(ur[up], uid, tty, start, latest, guess, recs);
      } else {
        RemembersSkip(recs, ur[up].first, ur[up].first + ur[up].cnt, uid, tty, start, latest, guess);
      }
    }

    /** Beyond the entry where the search stops there are only greater uids. */
    lemma {:induction false} Stopped(up: nat, uid: int, tty: int, start: int, latest: int, r: Option<string>,
                                     recs: seq<Ctmp>)
      requires Valid() && SortedByUid(recs) && up <= urlast && uid >= 0
      requires if urlast == 0 then recs == [] else Indexes(ur[..], sr[..], urlast, recs)
      requires up < urlast ==> uid < ur[up].uid
      requires Remembers(recs, if up == 0 then 0 else FirstAfter(ur[..], urlast, up - 1, recs), uid, tty, start,
                         latest, r)
      ensures Remembers(recs, |recs|, uid, tty, start, latest, r)
    {
      if up < urlast {
        assert up > 0 && Covers(ur[..][up], recs) && ur[..][up].cnt > 0;
        assert recs[ur[up].first].uid == ur[up].uid;
        RemembersSkip(recs, ur[up].first, |recs|, uid, tty, start, latest, r);
      }
    }

    /** One session more. */
    method AddSession(up0: int, sp: nat, cb: Ctmp, ghost done: seq<Ctmp>) returns (up: int, ok: bool)
      requires Reading(up0, done) && sp == |done|
      modifies ur, sr
      ensures Valid() && ok == Fits(done + [cb])
      ensures ok ==> Reading(up, done + [cb])
    {
      up := up0;
      RunsAdd(done, cb);
      LastUser(up0, cb, done);
      var isNew := up == -1 || cb.uid != ur[up].uid || cb.name != ur[up].name;
      if isNew {
        if up == -1 { up := 0; }
        up := up + 1;
        if up >= A_USIZE || sp >= A_SSIZE - 1 { return up, false; }
        AddNew(up, sp, cb, done);
      } else {
        if sp >= A_SSIZE - 1 { return up, false; }
        AddSame(up, sp, cb, done);
      }
      ok := true;
    }

    /** The entry in use is that of the last session. */
    lemma {:induction false} LastUser(up: int, cb: Ctmp, done: seq<Ctmp>)
      requires Reading(up, done)
      ensures StartsRun(done, cb) <==> up == -1 || cb.uid != ur[up].uid || cb.name != ur[up].name
    {
      if up != -1 { assert Covers(ur[..][up], done) && ur[..][up].first + ur[..][up].cnt == |done|; }
    }

    method AddNew(up: nat, sp: nat, cb: Ctmp, ghost done: seq<Ctmp>)
      requires Valid() && 1 <= up < A_USIZE && sp == |done| < A_SSIZE
      requires Indexes(ur[..], sr[..], up, done)
      modifies ur, sr
      ensures Valid() && Indexes(ur[..], sr[..], up + 1, done + [cb])
    {
      IndexesNew(ur[..], sr[..], up, done, cb);
      SetUser(up, Urec(cb.uid, cb.name, sp, 0));
      SetSession(sp, Srec(cb.tty, cb.start, cb.start + cb.con.0 + cb.con.1));
      SetUser(up, ur[up].(cnt := ur[up].cnt + 1));
      assert ur[..] == old(ur[..])[up := Urec(cb.uid, cb.name, sp, 1)];
    }

    method AddSame(up: nat, sp: nat, cb: Ctmp, ghost done: seq<Ctmp>)
      requires Valid() && 1 <= up < A_USIZE && sp == |done| < A_SSIZE
      requires Indexes(ur[..], sr[..], up + 1, done) && ur[up].uid == cb.uid && ur[up].name == cb.name
      modifies ur, sr
      ensures Valid() && Indexes(ur[..], sr[..], up + 1, done + [cb])
    {
      IndexesSame(ur[..], sr[..], up + 1, done, cb);
      SetSession(sp, Srec(cb.tty, cb.start, cb.start + cb.con.0 + cb.con.1));
      SetUser(up, ur[up].(cnt := ur[up].cnt + 1));
      assert ur[..] == old(ur[..])[up := old(ur[up]).(cnt := old(ur[up]).cnt + 1)];
    }

    method SetUser(up: nat, u: Urec)
      requires up < ur.Length
      modifies ur
      ensures ur[..] == old(ur[..])[up := u]
    {
      ur[up] := u;
    }

    method SetSession(sp: nat, s: Srec)
      requires sp < sr.Length
      modifies sr
      ensures sr[..] == old(sr[..])[sp := s]
    {
      sr[sp] := s;
    }
  }

  predicate IsCursor(up: int) {
    up == -1 || 1 <= up < A_USIZE
  }

  function Used(up: int): nat
    requires IsCursor(up)
  {
    if up == -1 then 1 else up + 1
  }
}
