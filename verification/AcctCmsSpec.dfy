/** Command summaries: a table by command name, then folding and compaction. */
module AcctCmsSpec {
  import opened Probing

  const CSIZE := 5001
  const NAMESIZE := 8

  /** A command name as C text: up to eight signed characters, none of them NUL. */
  type Name = s: seq<int> | |s| <= NAMESIZE && forall i :: 0 <= i < |s| ==> -128 <= s[i] < 128 && s[i] != 0

  datatype Use = Use(
    pc: (int, int), cpu: (real, real), elapsed: (real, real), kcore: (real, real), io: (real, real), rw: (real, real))

  datatype Pcms = Pcms(name: Name, use: Use)

  const Zero := Use((0, 0), (0.0, 0.0), (0.0, 0.0), (0.0, 0.0), (0.0, 0.0), (0.0, 0.0))

  /** pcmadd */
  function Add(a: Use, b: Use): Use {
    Use((a.pc.0 + b.pc.0, a.pc.1 + b.pc.1), (a.cpu.0 + b.cpu.0, a.cpu.1 + b.cpu.1),
        (a.elapsed.0 + b.elapsed.0, a.elapsed.1 + b.elapsed.1), (a.kcore.0 + b.kcore.0, a.kcore.1 + b.kcore.1),
        (a.io.0 + b.io.0, a.io.1 + b.io.1), (a.rw.0 + b.rw.0, a.rw.1 + b.rw.1))
  }

  datatype Counter = Pc | Cpu | Elapsed | Kcore | Io | Rw

  /** A counter, in prime time or not. */
  function Get(u: Use, c: Counter, prime: bool): real {
    match c
    case Pc => (if prime then u.pc.0 else u.pc.1) as real
    case Cpu => if prime then u.cpu.0 else u.cpu.1
    case Elapsed => if prime then u.elapsed.0 else u.elapsed.1
    case Kcore => if prime then u.kcore.0 else u.kcore.1
    case Io => if prime then u.io.0 else u.io.1
    case Rw => if prime then u.rw.0 else u.rw.1
  }

  lemma {:induction false} GetAdd(a: Use, b: Use, c: Counter, prime: bool)
    ensures Get(Add(a, b), c, prime) == Get(a, c, prime) + Get(b, c, prime)
  {}

  /** Two entries with the same counters are the same. */
  lemma {:induction false} GetAll(a: Use, b: Use)
    requires forall c, prime :: Get(a, c, prime) == Get(b, c, prime)
    ensures a == b
  {
    forall prime: bool
      ensures Get(a, Pc, prime) == Get(b, Pc, prime) && Get(a, Cpu, prime) == Get(b, Cpu, prime)
      ensures Get(a, Elapsed, prime) == Get(b, Elapsed, prime) && Get(a, Kcore, prime) == Get(b, Kcore, prime)
      ensures Get(a, Io, prime) == Get(b, Io, prime) && Get(a, Rw, prime) == Get(b, Rw, prime)
    {}
    assert forall c :: Get(a, c, true) == Get(b, c, true) && Get(a, c, false) == Get(b, c, false);
  }

  function Processes(u: Use): int {
    u.pc.0 + u.pc.1
  }

  // ---- Names and their hash ----

  /** A character that is negative or a control character becomes a question mark. */
  function CleanChar(c: int): int {
    if c <= 31 then '?' as int else c
  }

  /** Printable characters, from the space on, are kept; each other one becomes code 63. */
  function Clean(name: Name): (r: Name)
    ensures |r| == |name| && forall i :: 0 <= i < |r| ==> r[i] == if name[i] >= 32 then name[i] else 63
    ensures forall i :: 0 <= i < |r| ==> 32 <= r[i] < 128
  {
    seq(|name|, i requires 0 <= i < |name| => CleanChar(name[i]))
  }

  lemma {:induction false} CleanExactly(name: Name)
    ensures Clean(name) == name <==> forall i :: 0 <= i < |name| ==> name[i] >= 32
  {}

  /** The character at j of the eight, after cleaning; NUL past the end. */
  function CharAt(name: Name, j: nat): int {
    if j < |name| then CleanChar(name[j]) else 0
  }

  function HashTo(name: Name, j: nat): int {
    if j == 0 then 0 else HashTo(name, j - 1) * 7 + CharAt(name, j - 1)
  }

  function Pow7(j: nat): nat {
    if j == 0 then 1 else 7 * Pow7(j - 1)
  }

  /** The hash neither overflows 32 bits nor goes negative. */
  lemma {:induction false} HashBound(name: Name, j: nat)
    requires j <= NAMESIZE
    ensures 0 <= 6 * HashTo(name, j) <= 127 * (Pow7(j) - 1)
    ensures HashTo(name, j) < 0x8000_0000
    decreases j
  {
    if j > 0 { HashBound(name, j - 1); }
    Pow7Bound(j);
  }

  lemma {:induction false} Pow7Bound(j: nat)
    requires j <= NAMESIZE
    ensures Pow7(j) <= 5764801
  {
    assert Pow7(4) == 2401;
    assert Pow7(8) == 7 * 7 * 7 * 7 * Pow7(4);
  }

  /** The cell where the search for a name starts. */
  function Home(name: Name): (h: nat)
    ensures h < CSIZE
  {
    HashBound(name, NAMESIZE);
    HashTo(name, NAMESIZE) % CSIZE
  }

  // ---- The table as a map ----

  function CellOf(e: Pcms): Cell<Name, Use> {
    Cell(if e.name == [] then Free else Held(e.name), e.use)
  }

  function Cells(list: seq<Pcms>): (c: seq<Cell<Name, Use>>)
    ensures |c| == |list| && forall i :: 0 <= i < |c| ==> c[i] == CellOf(list[i])
  {
    seq(|list|, i requires 0 <= i < |list| => CellOf(list[i]))
  }

  ghost predicate Tabled(list: seq<Pcms>, m: map<Name, Use>) {
    |list| == CSIZE && Agrees(Cells(list), Home, Zero, m)
  }

  function Charge(m: map<Name, Use>, name: Name, use: Use): map<Name, Use> {
    m[name := Add(if name in m then m[name] else Zero, use)]
  }

  /** The totals of a list of records by cleaned name. */
  function Tally(m: map<Name, Use>, recs: seq<Pcms>): map<Name, Use> {
    if recs == [] then m
    else
      var last := recs[|recs| - 1];
      Charge(Tally(m, recs[..|recs| - 1]), Clean(last.name), last.use)
  }

  /** Cell p after a record is entered there. */
  function Entered(list: seq<Pcms>, p: nat, name: Name, use: Use): seq<Pcms>
    requires p < |list|
  {
    list[p := Pcms(if list[p].name == [] then name else list[p].name, Add(list[p].use, use))]
  }

  lemma {:induction false} EnteredTabled(list: seq<Pcms>, m: map<Name, Use>, p: nat, name: Name, use: Use)
    requires Tabled(list, m) && name != [] && p < |list|
    requires StopsAt(Slots(Cells(list)), Home(name), name, p)
    ensures Tabled(Entered(list, p, name, use), Charge(m, name, use))
  {
    var v := Add(list[p].use, use);
    SearchAgrees(Cells(list), Home, Zero, m, name, p);
    PutAgrees(Cells(list), Home, Zero, m, name, p, v);
    assert Cells(Entered(list, p, name, use)) == Cells(list)[p := Cell(Held(name), v)];
  }

  /** A search without an end means the table is full of other names. */
  lemma {:induction false} FullTabled(list: seq<Pcms>, m: map<Name, Use>, name: Name)
    requires Tabled(list, m) && name != [] && StopsAt(Slots(Cells(list)), Home(name), name, -1)
    ensures name !in m && forall q :: 0 <= q < |list| ==> list[q].name != []
  {
    SearchAgrees(Cells(list), Home, Zero, m, name, -1);
    forall q | 0 <= q < |list| ensures list[q].name != [] { assert Cells(list)[q].slot.Held?; }
  }

  /** A table has at most CSIZE names, and is full exactly when it has that many. */
  lemma {:induction false} TabledSize(list: seq<Pcms>, m: map<Name, Use>)
    requires Tabled(list, m)
    ensures |m.Keys| <= CSIZE
    ensures |m.Keys| == CSIZE <==> forall q :: 0 <= q < CSIZE ==> list[q].name != []
  {
    SizeAgrees(Cells(list), Home, Zero, m);
    forall q | 0 <= q < CSIZE ensures Cells(list)[q].slot.Held? <==> list[q].name != [] {
      assert Cells(list)[q] == CellOf(list[q]);
    }
  }

  lemma {:induction false} ClearTabled(list: seq<Pcms>)
    requires |list| == CSIZE && forall p :: 0 <= p < |list| ==> list[p] == Pcms([], Zero)
    ensures Tabled(list, map[])
  {
    assert forall p :: 0 <= p < |list| ==> Slots(Cells(list))[p].Free?;
  }

  // ---- Folding and compaction ----

  /** The grand total of a counter over the entries in use. */
  function Grand(list: seq<Pcms>, c: Counter, prime: bool): real {
    if list == [] then 0.0
    else Grand(list[..|list| - 1], c, prime) + Share(list[|list| - 1], c, prime)
  }

  function Share(e: Pcms, c: Counter, prime: bool): real {
    if e.name == [] then 0.0 else Get(e.use, c, prime)
  }

  predicate IsJunk(e: Pcms) {
    e.name != [] && Processes(e.use) <= 1
  }

  /** fixjunk's loop over the first n cells, folding into cell j. */
  function Folded(list: seq<Pcms>, j: nat, n: nat): (r: seq<Pcms>)
    requires j < |list| && n <= |list|
    ensures |r| == |list|
  {
    if n == 0 then list
    else
      var r, i := Folded(list, j, n - 1), n - 1;
      if i != j && IsJunk(r[i]) then
        r[j := r[j].(use := Add(r[j].use, r[i].use))][i := r[i].(name := [])]
      else r
  }

  /** squeeze: the entries in use, in table order. */
  function Squeezed(list: seq<Pcms>): (r: seq<Pcms>)
    ensures |r| <= |list|
  {
    if list == [] then []
    else Squeezed(list[..|list| - 1]) + (if list[|list| - 1].name == [] then [] else [list[|list| - 1]])
  }
}
