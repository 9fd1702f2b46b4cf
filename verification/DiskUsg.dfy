/** Disk usage per uid, in a fixed table searched by circular linear probing. */
module DiskUsg {
  import opened Probing

  const MAXUSERS := 3001
  const UNUSED := -1
  const FAIL := -1

  datatype Acct = Acct(uid: int, usage: int, name: string)

  /** A line of input: a uid, a login name and a count of blocks. */
  datatype Entry = Entry(uid: int, login: string, blocks: int)

  /** (unsigned) uid % MAXUSERS, for a uid of 32 bits. */
  function Home(uid: int): (h: nat)
    ensures h < MAXUSERS
  {
    uid % 0x1_0000_0000 % MAXUSERS
  }

  function CellOf(a: Acct): Cell<int, int> {
    Cell(if a.uid == UNUSED then Free else Held(a.uid), a.usage)
  }

  function Cells(list: seq<Acct>): (c: seq<Cell<int, int>>)
    ensures |c| == |list| && forall i :: 0 <= i < |c| ==> c[i] == CellOf(list[i])
  {
    seq(|list|, i requires 0 <= i < |list| => CellOf(list[i]))
  }

  // ---- The table as a map ----

  /** Blocks per uid. */
  function Tally(m: map<int, int>, entries: seq<Entry>): map<int, int>
    decreases |entries|
  {
    if entries == [] then m else Tally(Charge(m, entries[0].uid, entries[0].blocks), entries[1..])
  }

  function Charge(m: map<int, int>, uid: int, blocks: int): map<int, int> {
    m[uid := (if uid in m then m[uid] else 0) + blocks]
  }

  /** The table holds a map; unused cells are clear. */
  ghost predicate Tabled(list: seq<Acct>, m: map<int, int>) {
    |list| == MAXUSERS && Agrees(Cells(list), Home, 0, m)
  }

  /** The cell p after blocks are charged to a uid. */
  function Charged(list: seq<Acct>, p: nat, uid: int, login: string, blocks: int): seq<Acct>
    requires p < |list|
  {
    var a := if list[p].uid == UNUSED then Acct(uid, list[p].usage, login) else list[p];
    list[p := a.(usage := a.usage + blocks)]
  }

  lemma {:induction false} ChargedTabled(list: seq<Acct>, m: map<int, int>, p: nat, uid: int, login: string,
                                         blocks: int)
    requires Tabled(list, m) && uid != UNUSED && p < |list|
    requires StopsAt(Slots(Cells(list)), Home(uid), uid, p)
    ensures Tabled(Charged(list, p, uid, login, blocks), Charge(m, uid, blocks))
  {
    var v := list[p].usage + blocks;
    SearchAgrees(Cells(list), Home, 0, m, uid, p);
    PutAgrees(Cells(list), Home, 0, m, uid, p, v);
    assert Cells(Charged(list, p, uid, login, blocks)) == Cells(list)[p := Cell(Held(uid), v)];
  }

  /** The search settles whether a uid is known, and fails only for a new one in a full table. */
  lemma {:induction false} SearchTabled(list: seq<Acct>, m: map<int, int>, uid: int, p: int)
    requires Tabled(list, m) && uid != UNUSED && StopsAt(Slots(Cells(list)), Home(uid), uid, p)
    ensures p >= 0 ==> (uid in m <==> list[p].uid == uid)
    ensures p < 0 <==> forall q :: 0 <= q < |list| ==> list[q].uid != UNUSED && list[q].uid != uid
    ensures p < 0 ==> uid !in m
  {
    var cells := Cells(list);
    SearchAgrees(cells, Home, 0, m, uid, p);
    if p < 0 {
      forall q | 0 <= q < |list| ensures list[q].uid != UNUSED && list[q].uid != uid { assert cells[q].slot.Held?; }
    }
  }

  /** A uid is known exactly if its search ends at a cell in use. */
  lemma {:induction false} KnownIs(list: seq<Acct>, m: map<int, int>, uid: int, p: int)
    requires Tabled(list, m) && (uid != UNUSED ==> StopsAt(Slots(Cells(list)), Home(uid), uid, p))
    requires p == FAIL || (0 <= p < |list| && list[p].uid in {uid, UNUSED})
    ensures uid in m <==> p != FAIL && list[p].uid != UNUSED
  {
    if uid == UNUSED {
      assert !Holds(Slots(Cells(list)), UNUSED);
    } else {
      SearchTabled(list, m, uid, p);
    }
  }

  /** The blocks of a cell, and more. */
  function WithBlocks(list: seq<Acct>, p: nat, blocks: int): seq<Acct>
    requires p < |list|
  {
    list[p := list[p].(usage := list[p].usage + blocks)]
  }

  /** Blocks added to the cell of a known uid are charged to it. */
  lemma {:induction false} KnownCharged(list: seq<Acct>, m: map<int, int>, uid: int, p: nat, blocks: int)
    requires Tabled(list, m) && (uid != UNUSED ==> StopsAt(Slots(Cells(list)), Home(uid), uid, p))
    requires p < |list| && list[p].uid == uid != UNUSED
    ensures Tabled(WithBlocks(list, p, blocks), Charge(m, uid, blocks))
  {
    ChargedTabled(list, m, p, uid, "", blocks);
    KnownBlocks(list, uid, p, blocks);
  }

  lemma {:induction false} KnownBlocks(list: seq<Acct>, uid: int, p: nat, blocks: int)
    requires p < |list| && list[p].uid != UNUSED
    ensures WithBlocks(list, p, blocks) == Charged(list, p, uid, "", blocks)
  {}

  lemma {:induction false} ClearTabled(list: seq<Acct>)
    requires |list| == MAXUSERS && forall p :: 0 <= p < |list| ==> list[p] == Acct(UNUSED, 0, "")
    ensures Tabled(list, map[])
  {
    assert forall p :: 0 <= p < |list| ==> Slots(Cells(list))[p].Free?;
  }

  predicate NoneUnused(entries: seq<Entry>) {
    forall i :: 0 <= i < |entries| ==> entries[i].uid != UNUSED
  }

  lemma {:induction false} TallyHas(m: map<int, int>, entries: seq<Entry>, uid: int)
    ensures uid in Tally(m, entries) <==> uid in m || exists i :: 0 <= i < |entries| && entries[i].uid == uid
    decreases |entries|
  {
    if entries != [] {
      TallyHas(Charge(m, entries[0].uid, entries[0].blocks), entries[1..], uid);
      if i :| 0 <= i < |entries| && entries[i].uid == uid {
        assert i == 0 || entries[1..][i - 1].uid == uid;
      }
    }
  }

  /** The blocks of a uid over all entries. */
  function BlocksOf(entries: seq<Entry>, uid: int): int {
    if entries == [] then 0 else (if entries[0].uid == uid then entries[0].blocks else 0) + BlocksOf(entries[1..], uid)
  }

  lemma {:induction false} TallyIs(m: map<int, int>, entries: seq<Entry>, uid: int)
    requires uid in Tally(m, entries)
    ensures Tally(m, entries)[uid] == (if uid in m then m[uid] else 0) + BlocksOf(entries, uid)
    decreases |entries|
  {
    if entries != [] {
      var m1 := Charge(m, entries[0].uid, entries[0].blocks);
      TallyIs(m1, entries[1..], uid);
    }
  }

  /** The first entry of a uid, or the number of entries. */
  function FirstOf(entries: seq<Entry>, uid: int): (i: nat)
    ensures i <= |entries| && (i < |entries| ==> entries[i].uid == uid)
    ensures forall j :: 0 <= j < i ==> entries[j].uid != uid
  {
    if entries == [] || entries[0].uid == uid then 0 else 1 + FirstOf(entries[1..], uid)
  }

  /** A cell in use keeps its name; one that was claimed since has the login of the first entry of its uid. */
  predicate IsNamed(before: seq<Acct>, entries: seq<Entry>, list: seq<Acct>, p: nat) {
    p < |before| && p < |list| && p < MAXUSERS &&
    if before[p].uid != UNUSED then list[p].uid == before[p].uid && list[p].name == before[p].name
    else list[p].uid != UNUSED ==>
           var i := FirstOf(entries, list[p].uid);
           i < |entries| && list[p].name == entries[i].login
  }

  predicate AllNamed(before: seq<Acct>, entries: seq<Entry>, list: seq<Acct>) {
    forall p :: 0 <= p < MAXUSERS ==> IsNamed(before, entries, list, p)
  }

  lemma {:induction false} FirstOfNext(entries: seq<Entry>, n: nat, uid: int)
    requires n < |entries| && (FirstOf(entries[..n], uid) < n || entries[n].uid == uid)
    ensures FirstOf(entries[..n + 1], uid) == FirstOf(entries[..n], uid)
  {
    var i, j := FirstOf(entries[..n], uid), FirstOf(entries[..n + 1], uid);
    assert entries[..n + 1][i].uid == uid;
    assert forall k :: 0 <= k < i ==> entries[..n + 1][k] == entries[..n][k];
  }

  /** One more entry is charged to cell q. */
  lemma {:induction false} NamedNext(before: seq<Acct>, entries: seq<Entry>, n: nat, list: seq<Acct>, q: nat)
    requires n < |entries| && |before| == |list| == MAXUSERS && q < MAXUSERS && AllNamed(before, entries[..n], list)
    requires list[q].uid == UNUSED ==> FirstOf(entries[..n], entries[n].uid) == n
    ensures var e := entries[n];
      AllNamed(before, entries[..n + 1], Charged(list, q, e.uid, e.login, e.blocks))
  {
    var e := entries[n];
    var next, more := Charged(list, q, e.uid, e.login, e.blocks), entries[..n + 1];
    forall p | 0 <= p < MAXUSERS ensures IsNamed(before, more, next, p) {
      assert IsNamed(before, entries[..n], list, p);
      if before[p].uid == UNUSED && next[p].uid != UNUSED {
        FirstOfNext(entries, n, next[p].uid);
      }
    }
  }

  /** No table holds the uid that marks an unused cell. */
  lemma {:induction false} NeverTabled(list: seq<Acct>, m: map<int, int>, entries: seq<Entry>)
    requires !NoneUnused(entries)
    ensures !Tabled(list, Tally(m, entries))
  {
    TallyHas(m, entries, UNUSED);
    assert !Holds(Slots(Cells(list)), UNUSED);
  }

  /** Blocks entered for that uid are charged to the next user who hashes to the cell. */
  lemma {:induction false} UnusedUidLeaks(list: seq<Acct>, b: int, c: int)
    requires |list| == MAXUSERS && forall p :: 0 <= p < |list| ==> list[p] == Acct(UNUSED, 0, "")
    ensures var p := Home(UNUSED);
      && StopsAt(Slots(Cells(list)), p, UNUSED, p)
      && Home(p) == p
      && var once := Charged(list, p, UNUSED, "", b);
         StopsAt(Slots(Cells(once)), p, p, p) && Charged(once, p, p, "", c)[p] == Acct(p, b + c, "")
  {}

  class Table {
    const userlist: array<Acct>
    ghost var known: map<int, int>

    ghost predicate Valid()
      reads this, userlist
    {
      Tabled(userlist[..], known)
    }

    /** hashinit */
    constructor ()
      ensures Valid() && known == map[] && fresh(userlist)
    {
      userlist := new Acct[MAXUSERS](_ => Acct(UNUSED, 0, ""));
      known := map[];
      new;
      ClearTabled(userlist[..]);
    }

    /** hash: the cell of a uid or the free cell where it belongs, or FAIL. */
    method Hash(j: int) returns (index: int)
      requires userlist.Length == MAXUSERS
      ensures index == FAIL || (0 <= index < MAXUSERS && userlist[index].uid in {j, UNUSED})
      ensures j != UNUSED ==> StopsAt(Slots(Cells(userlist[..])), Home(j), j, index)
    {
      var start := Home(j);
      var circle := start;
      ghost var t, slots := 0, Slots(Cells(userlist[..]));
      while true
        invariant 0 <= t < MAXUSERS && circle == Wrap(start, t, MAXUSERS)
        invariant j != UNUSED ==> Passed(slots, start, t, j)
        decreases MAXUSERS - t
      {
        if userlist[circle].uid == j || userlist[circle].uid == UNUSED {
          DistWrap(start, t, MAXUSERS);
          return circle;
        }
        assert slots[circle] == Held(userlist[circle].uid);
        WrapStep(start, t, MAXUSERS);
        circle := (circle + 1) % MAXUSERS;
        t := t + 1;
        if circle == start { return FAIL; }
      }
    }

    /**
     * adduser: stops at a new uid when the table is full.  The table holds the blocks of
     * each uid exactly when no entry has the uid that marks an unused cell.
     */
    method AddUser(entries: seq<Entry>) returns (done: nat)
      requires Valid()
      modifies this`known, userlist
      ensures done <= |entries| && known == Tally(old(known), entries[..done])
      ensures Tabled(userlist[..], known) <==> NoneUnused(entries[..done])
      ensures NoneUnused(entries[..done]) ==> AllNamed(old(userlist[..]), entries[..done], userlist[..])
      ensures NoneUnused(entries) && done < |entries| ==>
                && entries[done].uid !in known
                && forall p :: 0 <= p < MAXUSERS ==> userlist[p].uid != UNUSED
      ensures NoneUnused(entries) ==> (done == |entries| <==> |old(known).Keys + Uids(entries)| <= 3001)
    {
      done := 0;
      while done < |entries|
        invariant done <= |entries| && Follows(old(userlist[..]), old(known), entries, done, userlist[..], known)
      {
        ghost var list := userlist[..];
        var ok, index := AddOne(entries[done]);
        if !ok { break; }
        FollowsNext(old(userlist[..]), old(known), entries, done, list, index, userlist[..], known);
        done := done + 1;
      }
      if !NoneUnused(entries[..done]) { NeverTabled(userlist[..], old(known), entries[..done]); }
      assert done == |entries| ==> entries[..done] == entries;
      if NoneUnused(entries) { RoomExactly(userlist[..], old(known), entries, done); }
    }

    /** One entry; fails only for a new uid in a full table. */
    method AddOne(e: Entry) returns (ok: bool, index: int)
      requires userlist.Length == MAXUSERS
      modifies this`known, userlist
      ensures known == if ok then Charge(old(known), e.uid, e.blocks) else old(known)
      ensures !ok ==> userlist[..] == old(userlist[..])
      ensures ok ==>
                0 <= index < MAXUSERS && userlist[..] == Charged(old(userlist[..]), index, e.uid, e.login, e.blocks)
      ensures ok && e.uid != UNUSED ==> StopsAt(Slots(Cells(old(userlist[..]))), Home(e.uid), e.uid, index)
      ensures e.uid != UNUSED && Tabled(old(userlist[..]), old(known)) ==> Valid()
      ensures e.uid != UNUSED && Tabled(old(userlist[..]), old(known)) && !ok ==>
                e.uid !in known && forall p :: 0 <= p < MAXUSERS ==> userlist[p].uid != UNUSED
    {
      index := Hash(e.uid);
      ghost var good := e.uid != UNUSED && Valid();
      if good { SearchTabled(userlist[..], known, e.uid, index); }
      if index == FAIL { return false, index; }
      if good { ChargedTabled(userlist[..], known, index, e.uid, e.login, e.blocks); }
      Store(index, e);
      known := Charge(known, e.uid, e.blocks);
      ok := true;
    }

    /** Charges an entry to a cell, which it claims if the cell is unused. */
    method Store(index: nat, e: Entry)
      requires index < userlist.Length
      modifies userlist
      ensures userlist[..] == Charged(old(userlist[..]), index, e.uid, e.login, e.blocks)
    {
      if userlist[index].uid == UNUSED {
        userlist[index] := userlist[index].(uid := e.uid, name := e.login);
      }
      userlist[index] := userlist[index].(usage := userlist[index].usage + e.blocks);
    }

    /** count: charge blocks to a uid that is already listed. */
    method Count(uid: int, blocks: int) returns (ok: bool)
      requires Valid()
      modifies this`known, userlist
      ensures Valid() && ok == (uid in old(known))
      ensures known == if ok then Charge(old(known), uid, blocks) else old(known)
    {
      var index := Hash(uid);
      KnownIs(userlist[..], known, uid, index);
      if index == FAIL || userlist[index].uid == UNUSED { return false; }
      KnownCharged(userlist[..], known, uid, index, blocks);
      AddBlocks(index, blocks);
      known := Charge(known, uid, blocks);
      ok := true;
    }

    method AddBlocks(index: nat, blocks: int)
      requires index < userlist.Length
      modifies userlist
      ensures userlist[..] == WithBlocks(old(userlist[..]), index, blocks)
    {
      userlist[index] := userlist[index].(usage := userlist[index].usage + blocks);
    }
  }

  function Uids(entries: seq<Entry>): set<int> {
    set i | 0 <= i < |entries| :: entries[i].uid
  }

  lemma {:induction false} TallyKeys(m: map<int, int>, entries: seq<Entry>)
    ensures Tally(m, entries).Keys == m.Keys + Uids(entries)
  {
    forall uid ensures uid in Tally(m, entries) <==> uid in m.Keys + Uids(entries) { TallyHas(m, entries, uid); }
  }

  /** The entries are all taken exactly if their uids, with those known before, are no more than the cells. */
  lemma {:induction false} RoomExactly(list: seq<Acct>, m: map<int, int>, entries: seq<Entry>, done: nat)
    requires done <= |entries| && Tabled(list, Tally(m, entries[..done]))
    requires done < |entries| ==> entries[done].uid !in Tally(m, entries[..done])
    requires done < |entries| ==> forall p :: 0 <= p < MAXUSERS ==> list[p].uid != UNUSED
    ensures done == |entries| <==> |m.Keys + Uids(entries)| <= 3001
  {
    var now := Tally(m, entries[..done]);
    TallyKeys(m, entries[..done]);
    TabledSize(list, now);
    if done == |entries| {
      assert entries[..done] == entries;
    } else {
      OneTooMany(now.Keys, entries[done].uid, m.Keys + Uids(entries));
    }
  }

  lemma {:induction false} OneTooMany(some: set<int>, x: int, all: set<int>)
    requires some <= all && x in all && x !in some
    ensures |all| > |some|
  {
    Subset(some + {x}, all);
  }

  lemma {:induction false} TabledSize(list: seq<Acct>, m: map<int, int>)
    requires Tabled(list, m)
    ensures |m.Keys| <= MAXUSERS
    ensures (forall p :: 0 <= p < MAXUSERS ==> list[p].uid != UNUSED) ==> |m.Keys| == MAXUSERS
  {
    SizeAgrees(Cells(list), Home, 0, m);
    if forall p :: 0 <= p < MAXUSERS ==> list[p].uid != UNUSED {
      forall p | 0 <= p < |list| ensures Cells(list)[p].slot.Held? { assert Cells(list)[p] == CellOf(list[p]); }
    }
  }

  /** A cell is claimed only for a uid that no earlier entry has. */
  lemma {:induction false} NamedAfter(before: seq<Acct>, m: map<int, int>, entries: seq<Entry>, n: nat, list: seq<Acct>,
                                      q: nat)
    requires n < |entries| && |before| == |list| == MAXUSERS && q < MAXUSERS && AllNamed(before, entries[..n], list)
    requires entries[n].uid != UNUSED && Tabled(list, Tally(m, entries[..n]))
    requires StopsAt(Slots(Cells(list)), Home(entries[n].uid), entries[n].uid, q)
    ensures var e := entries[n];
      AllNamed(before, entries[..n + 1], Charged(list, q, e.uid, e.login, e.blocks))
  {
    var uid := entries[n].uid;
    SearchTabled(list, Tally(m, entries[..n]), uid, q);
    TallyHas(m, entries[..n], uid);
    NamedNext(before, entries, n, list, q);
  }

  /** The table after the first n entries. */
  ghost predicate Follows(before: seq<Acct>, m: map<int, int>, entries: seq<Entry>, n: nat, list: seq<Acct>,
                          known: map<int, int>)
    requires n <= |entries|
  {
    && |before| == |list| == MAXUSERS && known == Tally(m, entries[..n])
    && (NoneUnused(entries[..n]) ==> Tabled(list, known) && AllNamed(before, entries[..n], list))
  }

  lemma {:induction false} FollowsNext(before: seq<Acct>, m: map<int, int>, entries: seq<Entry>, n: nat,
                                       list: seq<Acct>, q: nat, next: seq<Acct>, known: map<int, int>)
    requires n < |entries| && q < MAXUSERS && Follows(before, m, entries, n, list, Tally(m, entries[..n]))
    requires var e := entries[n];
      && next == Charged(list, q, e.uid, e.login, e.blocks)
      && known == Charge(Tally(m, entries[..n]), e.uid, e.blocks)
      && (e.uid != UNUSED ==> StopsAt(Slots(Cells(list)), Home(e.uid), e.uid, q))
    ensures Follows(before, m, entries, n + 1, next, known)
  {
    var e := entries[n];
    TallyNext(m, entries, n);
    if NoneUnused(entries[..n + 1]) {
      assert entries[..n + 1][n] == e;
      assert forall i :: 0 <= i < n ==> entries[..n + 1][i] == entries[..n][i];
      NamedAfter(before, m, entries, n, list, q);
      ChargedTabled(list, Tally(m, entries[..n]), q, e.uid, e.login, e.blocks);
    }
  }

  lemma {:induction false} TallyNext(m: map<int, int>, entries: seq<Entry>, i: nat)
    requires i < |entries|
    ensures Tally(m, entries[..i + 1]) == Charge(Tally(m, entries[..i]), entries[i].uid, entries[i].blocks)
    decreases i
  {
    if i > 0 {
      assert entries[..i + 1][1..] == entries[1..][..i] && entries[..i][1..] == entries[1..][..i - 1];
      TallyNext(Charge(m, entries[0].uid, entries[0].blocks), entries[1..], i - 1);
    }
  }
}
