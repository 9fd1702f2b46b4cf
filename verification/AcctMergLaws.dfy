/** What merging keeps, and what it gives on sorted streams. */
module AcctMergLaws {
  import opened AcctMergSpec

  /** A stream is read to its end exactly when all its records have names. */
  lemma {:induction false} LiveIsAll(s: seq<Tacct>)
    ensures Live(s) == s <==> forall i :: 0 <= i < |s| ==> s[i].name != ""
    decreases |s|
  {
    if s != [] && s[0].name != "" {
      LiveIsAll(s[1..]);
      assert s == [s[0]] + s[1..];
      if forall i :: 0 <= i < |s| ==> s[i].name != "" {
        assert forall i :: 0 <= i < |s[1..]| ==> s[1..][i].name != "";
      }
      if Live(s) == s {
        assert Live(s[1..]) == Live(s)[1..] == s[1..];
        forall i | 0 <= i < |s| ensures s[i].name != "" { if i > 0 { assert s[1..][i - 1] == s[i]; } }
      }
    }
  }

  // ---- Conservation: any streams ----

  /** f chooses whole groups. */
  ghost predicate Respects(f: Tacct -> bool, uidsum: bool) {
    forall a, b :: Same(a, b, uidsum) ==> f(a) == f(b)
  }

  function Chosen(k: Tacct, use: Usage, f: Tacct -> bool, c: Counter): real {
    if f(k) then Get(use, c) else 0.0
  }

  lemma {:induction false} TotalTake(ss: Streams, j: nat, f: Tacct -> bool, c: Counter)
    requires j < |ss| && ss[j] != []
    ensures Total(ss, f, c) == Chosen(ss[j][0], ss[j][0].use, f, c) + Total(ss[j := ss[j][1..]], f, c)
    decreases |ss|
  {
    var after := ss[j := ss[j][1..]];
    if j == 0 {
      assert after[1..] == ss[1..];
    } else {
      assert after[1..] == ss[1..][j - 1 := ss[j][1..]];
      TotalTake(ss[1..], j - 1, f, c);
    }
  }

  lemma {:induction false} DrainKeeps(ss: Streams, j: nat, k: Tacct, acc: Usage, uidsum: bool,
                                      f: Tacct -> bool, c: Counter)
    requires Respects(f, uidsum)
    ensures var (left, use) := Drain(ss, j, k, acc, uidsum);
      Chosen(k, acc, f, c) + Total(ss, f, c) == Chosen(k, use, f, c) + Total(left, f, c)
    decreases Size(ss), |ss| - j
  {
    if j < |ss| {
      if ss[j] != [] && Same(ss[j][0], k, uidsum) {
        var h, after := ss[j][0], ss[j := ss[j][1..]];
        SizeSet(ss, j, ss[j][1..]);
        TotalTake(ss, j, f, c);
        assert f(h) == f(k);
        GetAdd(acc, h.use, c);
        DrainKeeps(after, j, k, Add(acc, h.use), uidsum, f, c);
      } else {
        DrainKeeps(ss, j + 1, k, acc, uidsum, f, c);
      }
    }
  }

  lemma {:induction false} GroupKeeps(ss: Streams, i: nat, uidsum: bool, f: Tacct -> bool, c: Counter)
    requires i < |ss| && ss[i] != [] && Respects(f, uidsum)
    ensures var (left, rec) := Group(ss, i, uidsum);
      Total(ss, f, c) == Chosen(rec, rec.use, f, c) + Total(left, f, c)
  {
    var k := ss[i][0];
    TotalTake(ss, i, f, c);
    DrainKeeps(ss[i := ss[i][1..]], i, k, k.use, uidsum, f, c);
    var rec := Group(ss, i, uidsum).1;
    assert Same(rec, k, uidsum);
  }

  /** However the streams are ordered, what is written of each group is what was read of it. */
  lemma {:induction false} MergeKeeps(ss: Streams, uidsum: bool, f: Tacct -> bool, c: Counter)
    requires Respects(f, uidsum)
    ensures Sum(Merge(ss, uidsum), f, c) == Total(ss, f, c)
    decreases Size(ss)
  {
    var i := Least(ss, uidsum);
    if i < 0 {
      LeastNone(ss, uidsum);
      TotalEmpty(ss, f, c);
    } else {
      var (left, rec) := Group(ss, i, uidsum);
      GroupKeeps(ss, i, uidsum, f, c);
      MergeKeeps(left, uidsum, f, c);
      assert ([rec] + Merge(left, uidsum))[1..] == Merge(left, uidsum);
    }
  }

  lemma {:induction false} TotalEmpty(ss: Streams, f: Tacct -> bool, c: Counter)
    requires forall j :: 0 <= j < |ss| ==> ss[j] == []
    ensures Total(ss, f, c) == 0.0
    decreases |ss|
  {
    if ss != [] { TotalEmpty(ss[1..], f, c); }
  }

  lemma {:induction false} DrainTotalKeeps(ss: Streams, j: nat, k: Tacct, acc: Usage, tt: Usage, uidsum: bool,
                                           c: Counter)
    ensures Get(DrainTotal(ss, j, k, tt, uidsum), c) + Total(Drain(ss, j, k, acc, uidsum).0, Every, c)
         == Get(tt, c) + Total(ss, Every, c)
    decreases Size(ss), |ss| - j
  {
    if j < |ss| {
      if ss[j] != [] && Same(ss[j][0], k, uidsum) {
        SizeSet(ss, j, ss[j][1..]);
        TotalTake(ss, j, Every, c);
        GetAdd(tt, ss[j][0].use, c);
        DrainTotalKeeps(ss[j := ss[j][1..]], j, k, Add(acc, ss[j][0].use), Add(tt, ss[j][0].use), uidsum, c);
      } else {
        DrainTotalKeeps(ss, j + 1, k, acc, tt, uidsum, c);
      }
    }
  }

  /** The grand total is the sum of all records read, whatever their order. */
  lemma {:induction false} MergeTotalKeeps(ss: Streams, tt: Usage, uidsum: bool, c: Counter)
    ensures Get(MergeTotal(ss, tt, uidsum), c) == Get(tt, c) + Total(ss, Every, c)
    decreases Size(ss)
  {
    var i := Least(ss, uidsum);
    if i < 0 {
      LeastNone(ss, uidsum);
      TotalEmpty(ss, Every, c);
    } else {
      var h := ss[i][0];
      TotalTake(ss, i, Every, c);
      GetAdd(tt, h.use, c);
      DrainTotalKeeps(ss[i := ss[i][1..]], i, h, h.use, Add(tt, h.use), uidsum, c);
      MergeTotalKeeps(Group(ss, i, uidsum).0, GroupTotal(ss, i, tt, uidsum), uidsum, c);
    }
  }

  // ---- The least head, and the first of equals ----

  predicate NotAfter(ss: Streams, best: int, j: int, uidsum: bool)
    requires 0 <= best < |ss| && 0 <= j < |ss| && ss[best] != []
  {
    ss[j] != [] ==>
      !Before(ss[j][0], ss[best][0], uidsum) && (j < best ==> Before(ss[best][0], ss[j][0], uidsum))
  }

  lemma {:induction false} LeastFromIs(ss: Streams, j: nat, best: int, uidsum: bool)
    requires j <= |ss| && -1 <= best < j && (best >= 0 ==> ss[best] != [])
    requires best < 0 ==> forall l :: 0 <= l < j ==> ss[l] == []
    requires best >= 0 ==> forall l :: 0 <= l < j ==> NotAfter(ss, best, l, uidsum)
    ensures var i := LeastFrom(ss, j, best, uidsum);
      && (i < 0 ==> forall l :: 0 <= l < |ss| ==> ss[l] == [])
      && (i >= 0 ==> forall l :: 0 <= l < |ss| ==> NotAfter(ss, i, l, uidsum))
    decreases |ss| - j
  {
    if j < |ss| {
      if ss[j] != [] && (best < 0 || Before(ss[j][0], ss[best][0], uidsum)) {
        forall l | 0 <= l < j + 1 ensures NotAfter(ss, j, l, uidsum) {
          KeyOrder(ss[j][0], ss[j][0], uidsum);
          if l < j && ss[l] != [] {
            assert NotAfter(ss, best, l, uidsum);
            KeyStep(ss[j][0], ss[best][0], ss[l][0], uidsum);
            KeyOrder(ss[j][0], ss[l][0], uidsum);
          }
        }
        LeastFromIs(ss, j + 1, j, uidsum);
      } else {
        LeastFromIs(ss, j + 1, best, uidsum);
      }
    }
  }

  lemma {:induction false} LeastNone(ss: Streams, uidsum: bool)
    requires Least(ss, uidsum) < 0
    ensures forall j :: 0 <= j < |ss| ==> ss[j] == []
  {
    LeastFromIs(ss, 0, -1, uidsum);
  }

  // ---- Sorted streams ----

  predicate Ordered(s: seq<Tacct>, uidsum: bool) {
    forall a, b :: 0 <= a < b < |s| ==> !Before(s[b], s[a], uidsum)
  }

  predicate AllOrdered(ss: Streams, uidsum: bool) {
    forall j :: 0 <= j < |ss| ==> Ordered(ss[j], uidsum)
  }

  predicate Suffix(a: seq<Tacct>, b: seq<Tacct>) {
    |a| <= |b| && a == b[|b| - |a|..]
  }

  /** Every record comes after k. */
  predicate AllAfter(ss: Streams, k: Tacct, uidsum: bool) {
    forall j, l :: 0 <= j < |ss| && 0 <= l < |ss[j]| ==> Before(k, ss[j][l], uidsum)
  }

  lemma {:induction false} SuffixTail(a: seq<Tacct>, b: seq<Tacct>)
    requires b != [] && Suffix(a, b[1..])
    ensures Suffix(a, b)
  {}

  /** Draining takes records off the front, and leaves no head of the group from stream j on. */
  lemma {:induction false} DrainLeaves(ss: Streams, j: nat, k: Tacct, acc: Usage, uidsum: bool, l: nat)
    requires l < |ss|
    ensures var left := Drain(ss, j, k, acc, uidsum).0;
      && Suffix(left[l], ss[l])
      && (l < j ==> left[l] == ss[l])
      && (l >= j && left[l] != [] ==> !Same(left[l][0], k, uidsum))
    decreases Size(ss), |ss| - j
  {
    if j < |ss| {
      if ss[j] != [] && Same(ss[j][0], k, uidsum) {
        var after := ss[j := ss[j][1..]];
        SizeSet(ss, j, ss[j][1..]);
        DrainLeaves(after, j, k, Add(acc, ss[j][0].use), uidsum, l);
        if l == j { SuffixTail(Drain(ss, j, k, acc, uidsum).0[l], ss[l]); }
      } else {
        DrainLeaves(ss, j + 1, k, acc, uidsum, l);
      }
    }
  }

  lemma {:induction false} HeadAfter(s: seq<Tacct>, k: Tacct, uidsum: bool)
    requires Ordered(s, uidsum) && (s != [] ==> Before(k, s[0], uidsum))
    ensures forall l :: 0 <= l < |s| ==> Before(k, s[l], uidsum)
  {
    forall l | 0 < l < |s| ensures Before(k, s[l], uidsum) { KeyStep(k, s[0], s[l], uidsum); }
  }

  lemma {:induction false} SuffixOrdered(a: seq<Tacct>, b: seq<Tacct>, uidsum: bool)
    requires Suffix(a, b) && Ordered(b, uidsum)
    ensures Ordered(a, uidsum)
  {
    forall x, y | 0 <= x < y < |a| ensures !Before(a[y], a[x], uidsum) {
      assert a[x] == b[|b| - |a| + x] && a[y] == b[|b| - |a| + y];
    }
  }

  /** After the least group is written, everything left comes after it. */
  lemma {:induction false} GroupLeaves(ss: Streams, uidsum: bool)
    requires AllOrdered(ss, uidsum) && Least(ss, uidsum) >= 0
    ensures var (left, rec) := Group(ss, Least(ss, uidsum), uidsum);
      AllOrdered(left, uidsum) && AllAfter(left, rec, uidsum)
  {
    var i := Least(ss, uidsum);
    LeastFromIs(ss, 0, -1, uidsum);
    var k, rest := ss[i][0], ss[i := ss[i][1..]];
    var (left, rec) := Group(ss, i, uidsum);
    forall l | 0 <= l < |left|
      ensures Ordered(left[l], uidsum) && forall m :: 0 <= m < |left[l]| ==> Before(rec, left[l][m], uidsum)
    {
      assert NotAfter(ss, i, l, uidsum);
      DrainLeaves(rest, i, k, k.use, uidsum, l);
      if l == i { SuffixTail(left[l], ss[l]); }
      SuffixOrdered(left[l], ss[l], uidsum);
      if left[l] != [] {
        var h := left[l][0];
        if l < i {
          assert Before(k, h, uidsum);
        } else {
          HeadNotBefore(ss[l], left[l], k, uidsum);
          KeyOrder(h, k, uidsum);
        }
        assert Before(rec, h, uidsum);
      }
      HeadAfter(left[l], rec, uidsum);
    }
  }

  lemma {:induction false} HeadNotBefore(s: seq<Tacct>, a: seq<Tacct>, k: Tacct, uidsum: bool)
    requires Ordered(s, uidsum) && Suffix(a, s) && a != [] && !Before(s[0], k, uidsum)
    ensures !Before(a[0], k, uidsum)
  {
    assert a[0] == s[|s| - |a|];
    if Before(a[0], k, uidsum) {
      KeyStep(a[0], k, s[0], uidsum);
    }
  }

  predicate Increasing(s: seq<Tacct>, uidsum: bool) {
    forall a, b :: 0 <= a < b < |s| ==> Before(s[a], s[b], uidsum)
  }

  lemma {:induction false} MergeAfter(ss: Streams, k: Tacct, uidsum: bool)
    requires AllAfter(ss, k, uidsum)
    ensures forall n :: 0 <= n < |Merge(ss, uidsum)| ==> Before(k, Merge(ss, uidsum)[n], uidsum)
    decreases Size(ss)
  {
    var i := Least(ss, uidsum);
    if i >= 0 {
      var h, rest := ss[i][0], ss[i := ss[i][1..]];
      var (left, rec) := Group(ss, i, uidsum);
      forall j, l | 0 <= j < |left| && 0 <= l < |left[j]| ensures Before(k, left[j][l], uidsum) {
        DrainLeaves(rest, i, h, h.use, uidsum, j);
        if j == i { SuffixTail(left[j], ss[j]); }
        assert left[j][l] == ss[j][|ss[j]| - |left[j]| + l];
      }
      MergeAfter(left, k, uidsum);
    }
  }

  /** From sorted streams the groups come out in strictly increasing order: one record each. */
  lemma {:induction false} MergeIncreases(ss: Streams, uidsum: bool)
    requires AllOrdered(ss, uidsum)
    ensures Increasing(Merge(ss, uidsum), uidsum)
    decreases Size(ss)
  {
    var i := Least(ss, uidsum);
    if i >= 0 {
      var (left, rec) := Group(ss, i, uidsum);
      GroupLeaves(ss, uidsum);
      MergeIncreases(left, uidsum);
      MergeAfter(left, rec, uidsum);
    }
  }

  lemma {:induction false} SumOne(s: seq<Tacct>, n: nat, uidsum: bool, c: Counter)
    requires Increasing(s, uidsum) && n < |s|
    ensures Sum(s, r => Same(r, s[n], uidsum), c) == Get(s[n].use, c)
    decreases |s|
  {
    var k := s[n];
    var f := (r: Tacct) => Same(r, k, uidsum);
    if n > 0 {
      KeyOrder(s[0], k, uidsum);
      assert s[1..][n - 1] == k;
      SumOne(s[1..], n - 1, uidsum, c);
    } else {
      forall m | 0 <= m < |s[1..]| ensures !f(s[1..][m]) {
        KeyOrder(s[m + 1], k, uidsum);
        KeyOrder(k, s[m + 1], uidsum);
      }
      SumNone(s[1..], f, c);
    }
  }

  lemma {:induction false} SumNone(s: seq<Tacct>, f: Tacct -> bool, c: Counter)
    requires forall m :: 0 <= m < |s| ==> !f(s[m])
    ensures Sum(s, f, c) == 0.0
    decreases |s|
  {
    if s != [] { SumNone(s[1..], f, c); }
  }

  /**
   * Merging sorted streams: keys strictly increase, and each record written is, in every
   * counter, the sum of all records read with its key.
   */
  lemma {:induction false} MergeIsGroupSum(ss: Streams, uidsum: bool, n: nat, c: Counter)
    requires AllOrdered(ss, uidsum) && n < |Merge(ss, uidsum)|
    ensures Increasing(Merge(ss, uidsum), uidsum)
    ensures var out := Merge(ss, uidsum);
      Get(out[n].use, c) == Total(ss, r => Same(r, out[n], uidsum), c)
  {
    var out := Merge(ss, uidsum);
    MergeIncreases(ss, uidsum);
    SumOne(out, n, uidsum, c);
    MergeKeeps(ss, uidsum, r => Same(r, out[n], uidsum), c);
  }

  /** Every record read has a record written with its key. */
  lemma {:induction false} MergeCovers(ss: Streams, uidsum: bool, j: nat, l: nat)
    requires j < |ss| && l < |ss[j]|
    ensures exists n :: 0 <= n < |Merge(ss, uidsum)| && Same(Merge(ss, uidsum)[n], ss[j][l], uidsum)
    decreases Size(ss)
  {
    var i := Least(ss, uidsum);
    if i < 0 {
      LeastNone(ss, uidsum);
    } else {
      var h, rest := ss[i][0], ss[i := ss[i][1..]];
      var (left, rec) := Group(ss, i, uidsum);
      var out := Merge(ss, uidsum);
      assert out[0] == rec && out[1..] == Merge(left, uidsum);
      if Same(rec, ss[j][l], uidsum) {
        assert Same(out[0], ss[j][l], uidsum);
      } else {
        DrainTakesGroup(rest, i, h, h.use, uidsum, j, if j == i then l - 1 else l);
        var m :| 0 <= m < |left[j]| && left[j][m] == ss[j][l];
        MergeCovers(left, uidsum, j, m);
        var n :| 0 <= n < |Merge(left, uidsum)| && Same(Merge(left, uidsum)[n], ss[j][l], uidsum);
        assert Same(out[n + 1], ss[j][l], uidsum);
      }
    }
  }

  predicate IsUser(r: Tacct, ss: Streams, j: int, l: int) {
    0 <= j < |ss| && 0 <= l < |ss[j]| && r.uid == ss[j][l].uid && r.name == ss[j][l].name
  }

  /** Every record written, with -u too, has the uid and the name of one that was read. */
  lemma {:induction false} MergeUsers(ss: Streams, uidsum: bool, n: nat)
    requires n < |Merge(ss, uidsum)|
    ensures exists j, l :: IsUser(Merge(ss, uidsum)[n], ss, j, l)
    decreases Size(ss)
  {
    var i, out := Least(ss, uidsum), Merge(ss, uidsum);
    var h, rest := ss[i][0], ss[i := ss[i][1..]];
    var (left, rec) := Group(ss, i, uidsum);
    if n == 0 {
      assert IsUser(out[n], ss, i, 0);
    } else {
      MergeUsers(left, uidsum, n - 1);
      var j, l :| IsUser(Merge(left, uidsum)[n - 1], left, j, l);
      DrainLeaves(rest, i, h, h.use, uidsum, j);
      if j == i { SuffixTail(left[j], ss[j]); }
      assert out[n] == Merge(left, uidsum)[n - 1] && left[j][l] == ss[j][|ss[j]| - |left[j]| + l];
      assert IsUser(out[n], ss, j, |ss[j]| - |left[j]| + l);
    }
  }

  /** Draining takes only records of the group. */
  lemma {:induction false} DrainTakesGroup(ss: Streams, i: nat, k: Tacct, acc: Usage, uidsum: bool, j: nat, l: nat)
    requires j < |ss| && l < |ss[j]| && !Same(ss[j][l], k, uidsum)
    ensures ss[j][l] in Drain(ss, i, k, acc, uidsum).0[j]
    decreases Size(ss), |ss| - i
  {
    if i < |ss| {
      if ss[i] != [] && Same(ss[i][0], k, uidsum) {
        SizeSet(ss, i, ss[i][1..]);
        DrainTakesGroup(ss[i := ss[i][1..]], i, k, Add(acc, ss[i][0].use), uidsum, j, if j == i then l - 1 else l);
      } else {
        DrainTakesGroup(ss, i + 1, k, acc, uidsum, j, l);
      }
    }
  }
}
