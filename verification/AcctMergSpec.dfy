/** Merging streams of accounting records: grouping by user and summing. */
module AcctMergSpec {

  datatype Usage = Usage(
    cpu: (real, real), kcore: (real, real), con: (real, real), du: real,
    pc: int, sc: int, dc: int, fee: int)

  datatype Tacct = Tacct(uid: int, name: string, use: Usage)

  const Zero := Usage((0.0, 0.0), (0.0, 0.0), (0.0, 0.0), 0.0, 0, 0, 0, 0)

  /** tacctadd */
  function Add(a: Usage, b: Usage): Usage {
    Usage((a.cpu.0 + b.cpu.0, a.cpu.1 + b.cpu.1),
          (a.kcore.0 + b.kcore.0, a.kcore.1 + b.kcore.1),
          (a.con.0 + b.con.0, a.con.1 + b.con.1),
          a.du + b.du, a.pc + b.pc, a.sc + b.sc, a.dc + b.dc, a.fee + b.fee)
  }

  /** The counters of a record. */
  datatype Counter = Cpu0 | Cpu1 | Kcore0 | Kcore1 | Con0 | Con1 | Du | Pc | Sc | Dc | Fee

  function Get(u: Usage, c: Counter): real {
    match c
    case Cpu0 => u.cpu.0
    case Cpu1 => u.cpu.1
    case Kcore0 => u.kcore.0
    case Kcore1 => u.kcore.1
    case Con0 => u.con.0
    case Con1 => u.con.1
    case Du => u.du
    case Pc => u.pc as real
    case Sc => u.sc as real
    case Dc => u.dc as real
    case Fee => u.fee as real
  }

  lemma {:induction false} GetAdd(a: Usage, b: Usage, c: Counter)
    ensures Get(Add(a, b), c) == Get(a, c) + Get(b, c)
  {}

  /** Nothing else is in a record: two with the same counters are the same. */
  lemma {:induction false} GetAll(a: Usage, b: Usage)
    requires forall c :: Get(a, c) == Get(b, c)
    ensures a == b
  {
    assert Get(a, Cpu0) == Get(b, Cpu0) && Get(a, Cpu1) == Get(b, Cpu1);
    assert Get(a, Kcore0) == Get(b, Kcore0) && Get(a, Kcore1) == Get(b, Kcore1);
    assert Get(a, Con0) == Get(b, Con0) && Get(a, Con1) == Get(b, Con1) && Get(a, Du) == Get(b, Du);
    assert Get(a, Pc) == Get(b, Pc) && Get(a, Sc) == Get(b, Sc);
    assert Get(a, Dc) == Get(b, Dc) && Get(a, Fee) == Get(b, Fee);
  }

  // ---- Keys ----

  /** strncmp(a, b, NSZ) < 0 */
  predicate NameLess(a: string, b: string) {
    b != [] && (a == [] || a[0] < b[0] || (a[0] == b[0] && NameLess(a[1..], b[1..])))
  }

  /** The first name is a beginning of the second, or smaller at the first difference. */
  ghost predicate Precedes(a: string, b: string) {
    a < b || exists k :: 0 <= k < |a| && k < |b| && a[..k] == b[..k] && a[k] < b[k]
  }

  lemma {:induction false} NameLessExactly(a: string, b: string)
    ensures NameLess(a, b) <==> Precedes(a, b)
    decreases |a|
  {
    if a != [] && b != [] {
      NameLessExactly(a[1..], b[1..]);
      if a[0] == b[0] {
        PrecedesTail(a, b);
      } else if a[0] < b[0] {
        assert a[..0] == b[..0];
      } else {
        forall k | 0 < k < |a| && k < |b| ensures a[..k] != b[..k] { assert a[..k][0] == a[0] && b[..k][0] == b[0]; }
      }
    }
  }

  lemma {:induction false} PrecedesTail(a: string, b: string)
    requires a != [] && b != [] && a[0] == b[0]
    ensures Precedes(a, b) <==> Precedes(a[1..], b[1..])
  {
    assert a == [a[0]] + a[1..] && b == [b[0]] + b[1..];
    if k :| 0 <= k < |a| && k < |b| && a[..k] == b[..k] && a[k] < b[k] {
      assert k > 0 && a[1..][..k - 1] == a[..k][1..] == b[..k][1..] == b[1..][..k - 1];
      assert a[1..][k - 1] < b[1..][k - 1];
    }
    if k :| 0 <= k < |a[1..]| && k < |b[1..]| && a[1..][..k] == b[1..][..k] && a[1..][k] < b[1..][k] {
      assert a[..k + 1] == [a[0]] + a[1..][..k] == [b[0]] + b[1..][..k] == b[..k + 1];
      assert a[k + 1] < b[k + 1];
    }
  }

  lemma {:induction false} NameTotal(a: string, b: string)
    ensures NameLess(a, b) || NameLess(b, a) || a == b
    ensures !(NameLess(a, b) && NameLess(b, a))
    ensures a == b ==> !NameLess(a, b)
    decreases |a|
  {
    if a != [] && b != [] {
      NameTotal(a[1..], b[1..]);
      assert a == [a[0]] + a[1..] && b == [b[0]] + b[1..];
    }
  }

  lemma {:induction false} NameTrans(a: string, b: string, c: string)
    requires NameLess(a, b) && NameLess(b, c)
    ensures NameLess(a, c)
    decreases |a|
  {
    if a != [] && a[0] == b[0] == c[0] { NameTrans(a[1..], b[1..], c[1..]); }
  }

  /** Records to be added together: the same uid, and the same name unless -u. */
  predicate Same(a: Tacct, b: Tacct, uidsum: bool) {
    a.uid == b.uid && (uidsum || a.name == b.name)
  }

  predicate Before(a: Tacct, b: Tacct, uidsum: bool) {
    a.uid < b.uid || (a.uid == b.uid && !uidsum && NameLess(a.name, b.name))
  }

  /** Records are in order of uid, and those of one uid in order of name unless -u. */
  lemma {:induction false} BeforeExactly(a: Tacct, b: Tacct, uidsum: bool)
    ensures uidsum ==> (Before(a, b, uidsum) <==> a.uid < b.uid)
    ensures !uidsum ==> (Before(a, b, uidsum) <==> a.uid < b.uid || (a.uid == b.uid && Precedes(a.name, b.name)))
  {
    NameLessExactly(a.name, b.name);
  }

  lemma {:induction false} KeyOrder(a: Tacct, b: Tacct, uidsum: bool)
    ensures Before(a, b, uidsum) || Before(b, a, uidsum) || Same(a, b, uidsum)
    ensures !(Before(a, b, uidsum) && Before(b, a, uidsum))
    ensures Same(a, b, uidsum) ==> !Before(a, b, uidsum)
  {
    NameTotal(a.name, b.name);
  }

  lemma {:induction false} KeyTrans(a: Tacct, b: Tacct, c: Tacct, uidsum: bool)
    requires Before(a, b, uidsum) && Before(b, c, uidsum)
    ensures Before(a, c, uidsum)
  {
    if a.uid == b.uid == c.uid { NameTrans(a.name, b.name, c.name); }
  }

  /** Not before is transitive too. */
  lemma {:induction false} KeyStep(a: Tacct, b: Tacct, c: Tacct, uidsum: bool)
    requires Before(a, b, uidsum) && !Before(c, b, uidsum)
    ensures Before(a, c, uidsum)
  {
    KeyOrder(b, c, uidsum);
    if Before(b, c, uidsum) { KeyTrans(a, b, c, uidsum); }
  }

  // ---- Streams ----

  /** The records a stream yields; a record without a name ends it. */
  function Live(s: seq<Tacct>): seq<Tacct> {
    if s == [] || s[0].name == "" then [] else [s[0]] + Live(s[1..])
  }

  type Streams = seq<seq<Tacct>>

  function Size(ss: Streams): nat {
    if ss == [] then 0 else |ss[0]| + Size(ss[1..])
  }

  lemma {:induction false} SizeSet(ss: Streams, j: nat, s: seq<Tacct>)
    requires j < |ss|
    ensures Size(ss[j := s]) == Size(ss) - |ss[j]| + |s|
    decreases |ss|
  {
    if j == 0 {
      assert ss[j := s][1..] == ss[1..];
    } else {
      assert ss[j := s][1..] == ss[1..][j - 1 := s];
      SizeSet(ss[1..], j - 1, s);
    }
  }

  /** The sum of a counter over the records chosen by f. */
  function Sum(s: seq<Tacct>, f: Tacct -> bool, c: Counter): real {
    if s == [] then 0.0 else (if f(s[0]) then Get(s[0].use, c) else 0.0) + Sum(s[1..], f, c)
  }

  function Total(ss: Streams, f: Tacct -> bool, c: Counter): real {
    if ss == [] then 0.0 else Sum(ss[0], f, c) + Total(ss[1..], f, c)
  }

  // ---- One group ----

  /** getleast from stream j on, given the best stream so far. */
  function LeastFrom(ss: Streams, j: nat, best: int, uidsum: bool): (i: int)
    requires j <= |ss| && -1 <= best < j && (best >= 0 ==> ss[best] != [])
    ensures -1 <= i < |ss| && (i >= 0 ==> ss[i] != [])
    decreases |ss| - j
  {
    if j == |ss| then best
    else if ss[j] != [] && (best < 0 || Before(ss[j][0], ss[best][0], uidsum)) then LeastFrom(ss, j + 1, j, uidsum)
    else LeastFrom(ss, j + 1, best, uidsum)
  }

  function Least(ss: Streams, uidsum: bool): (i: int)
    ensures -1 <= i < |ss| && (i >= 0 ==> ss[i] != [])
  {
    LeastFrom(ss, 0, -1, uidsum)
  }

  /** The inner loop of sumcurr: what is left of the streams, and the sum. */
  function Drain(ss: Streams, j: nat, k: Tacct, acc: Usage, uidsum: bool): (r: (Streams, Usage))
    ensures |r.0| == |ss| && Size(r.0) <= Size(ss)
    decreases Size(ss), |ss| - j
  {
    if j >= |ss| then (ss, acc)
    else if ss[j] != [] && Same(ss[j][0], k, uidsum) then
      SizeSet(ss, j, ss[j][1..]);
      Drain(ss[j := ss[j][1..]], j, k, Add(acc, ss[j][0].use), uidsum)
    else Drain(ss, j + 1, k, acc, uidsum)
  }

  /** sumcurr on stream i: what is left, and the record written. */
  function Group(ss: Streams, i: nat, uidsum: bool): (r: (Streams, Tacct))
    requires i < |ss| && ss[i] != []
    ensures |r.0| == |ss| && Size(r.0) < Size(ss)
  {
    var k := ss[i][0];
    SizeSet(ss, i, ss[i][1..]);
    var (left, use) := Drain(ss[i := ss[i][1..]], i, k, k.use, uidsum);
    (left, k.(use := use))
  }

  /** The records the program writes. */
  function Merge(ss: Streams, uidsum: bool): seq<Tacct>
    decreases Size(ss)
  {
    var i := Least(ss, uidsum);
    if i < 0 then []
    else
      var (left, rec) := Group(ss, i, uidsum);
      [rec] + Merge(left, uidsum)
  }

  // ---- The grand total, kept along the way ----

  function DrainTotal(ss: Streams, j: nat, k: Tacct, tt: Usage, uidsum: bool): Usage
    decreases Size(ss), |ss| - j
  {
    if j >= |ss| then tt
    else if ss[j] != [] && Same(ss[j][0], k, uidsum) then
      SizeSet(ss, j, ss[j][1..]);
      DrainTotal(ss[j := ss[j][1..]], j, k, Add(tt, ss[j][0].use), uidsum)
    else DrainTotal(ss, j + 1, k, tt, uidsum)
  }

  function GroupTotal(ss: Streams, i: nat, tt: Usage, uidsum: bool): Usage
    requires i < |ss| && ss[i] != []
  {
    DrainTotal(ss[i := ss[i][1..]], i, ss[i][0], Add(tt, ss[i][0].use), uidsum)
  }

  /** The total after everything is written. */
  function MergeTotal(ss: Streams, tt: Usage, uidsum: bool): Usage
    decreases Size(ss)
  {
    var i := Least(ss, uidsum);
    if i < 0 then tt else MergeTotal(Group(ss, i, uidsum).0, GroupTotal(ss, i, tt, uidsum), uidsum)
  }

  /** Chooses every record. */
  predicate Every(r: Tacct) {
    true
  }
}
