/** Circular linear probing without deletion, over any kind of key. */
module Probing {

  datatype Slot<K> = Free | Held(key: K)

  /** The cell t steps round from h. */
  function Wrap(h: nat, t: nat, n: nat): (p: nat)
    requires h < n && t <= n
    ensures p < n
  {
    if h + t < n then h + t else h + t - n
  }

  /** The number of steps from h round to p. */
  function Dist(h: nat, p: nat, n: nat): (t: nat)
    requires h < n && p < n
    ensures t < n && Wrap(h, t, n) == p
  {
    if p >= h then p - h else p + n - h
  }

  lemma {:induction false} DistWrap(h: nat, t: nat, n: nat)
    requires h < n && t < n
    ensures Dist(h, Wrap(h, t, n), n) == t
  {}

  /** One step round, as the programs compute it. */
  lemma {:induction false} WrapStep(h: nat, t: nat, n: nat)
    requires h < n && t < n
    ensures (Wrap(h, t, n) + 1) % n == Wrap(h, t + 1, n)
  {
    if h + t + 1 == n || h + t + 1 == 2 * n {
      assert (Wrap(h, t, n) + 1) % n == 0;
    }
  }

  /** The first t cells from h hold keys other than k. */
  predicate Passed<K(==)>(slots: seq<Slot<K>>, h: nat, t: nat, k: K)
    requires h < |slots| && t <= |slots|
  {
    forall u :: 0 <= u < t ==> slots[Wrap(h, u, |slots|)].Held? && slots[Wrap(h, u, |slots|)].key != k
  }

  /** Every key is reached from its home past other keys only. */
  ghost predicate Probed<K>(slots: seq<Slot<K>>, home: K -> nat) {
    forall p :: 0 <= p < |slots| && slots[p].Held? ==> Reached(slots, home, p)
  }

  predicate Reached<K(==)>(slots: seq<Slot<K>>, home: K -> nat, p: nat)
    requires p < |slots| && slots[p].Held?
  {
    var k := slots[p].key;
    home(k) < |slots| && Passed(slots, home(k), Dist(home(k), p, |slots|), k)
  }

  /** Where a search for k from its home stops: at k, at a free cell, or nowhere. */
  ghost predicate StopsAt<K>(slots: seq<Slot<K>>, h: nat, k: K, p: int) {
    h < |slots| &&
    if p < 0 then Passed(slots, h, |slots|, k)
    else p < |slots| && Passed(slots, h, Dist(h, p, |slots|), k) && (slots[p].Held? ==> slots[p].key == k)
  }

  predicate Holds<K(==)>(slots: seq<Slot<K>>, k: K) {
    exists p :: 0 <= p < |slots| && slots[p] == Held(k)
  }

  /** A key stands in one cell only. */
  lemma {:induction false} Unique<K>(slots: seq<Slot<K>>, home: K -> nat, p: nat, q: nat)
    requires Probed(slots, home) && p < |slots| && q < |slots|
    requires slots[p].Held? && slots[q] == slots[p]
    ensures p == q
  {
    assert Reached(slots, home, p) && Reached(slots, home, q);
    var h, n := home(slots[p].key), |slots|;
    var t, u := Dist(h, p, n), Dist(h, q, n);
    assert !(t < u) && !(u < t);
  }

  /** The search finds a key exactly when it is there, and fails exactly when others fill the table. */
  lemma {:induction false} SearchExact<K>(slots: seq<Slot<K>>, home: K -> nat, k: K, p: int)
    requires Probed(slots, home) && StopsAt(slots, home(k), k, p)
    ensures Holds(slots, k) <==> p >= 0 && slots[p].Held?
    ensures p < 0 <==> forall q :: 0 <= q < |slots| ==> slots[q].Held? && slots[q].key != k
  {
    var h, n := home(k), |slots|;
    if p < 0 {
      forall q | 0 <= q < n ensures slots[q].Held? && slots[q].key != k {
        assert slots[Wrap(h, Dist(h, q, n), n)].Held?;
      }
    } else if slots[p].Free? {
      assert forall q :: 0 <= q < n && slots[q].Held? && slots[q].key == k ==> !Reached(slots, home, q);
    }
  }

  /** Entering a key where its search stopped keeps every key reachable. */
  lemma {:induction false} EnterKeeps<K>(slots: seq<Slot<K>>, home: K -> nat, k: K, p: nat)
    requires Probed(slots, home) && StopsAt(slots, home(k), k, p)
    ensures Probed(slots[p := Held(k)], home)
  {
    var after, n := slots[p := Held(k)], |slots|;
    forall q | 0 <= q < n && after[q].Held? ensures Reached(after, home, q) {
      if q == p {
        var h := home(k);
        forall u | 0 <= u < Dist(h, p, n)
          ensures after[Wrap(h, u, n)].Held? && after[Wrap(h, u, n)].key != k
        {
          DistWrap(h, u, n);
          assert slots[Wrap(h, u, n)].Held?;
        }
      } else {
        assert Reached(slots, home, q);
        var h := home(slots[q].key);
        forall u | 0 <= u < Dist(h, q, n)
          ensures after[Wrap(h, u, n)].Held? && after[Wrap(h, u, n)].key != slots[q].key
        {
          assert slots[Wrap(h, u, n)].Held? && slots[Wrap(h, u, n)].key != slots[q].key;
          if slots[p].Held? && slots[q].key == k { Unique(slots, home, p, q); }
        }
      }
    }
  }

  // ---- Tables that hold a value for each key ----

  datatype Cell<K, V> = Cell(slot: Slot<K>, value: V)

  function Slots<K, V>(cells: seq<Cell<K, V>>): (s: seq<Slot<K>>)
    ensures |s| == |cells| && forall i :: 0 <= i < |s| ==> s[i] == cells[i].slot
  {
    seq(|cells|, i requires 0 <= i < |cells| => cells[i].slot)
  }

  /** The table is reachable by probing and holds a map; free cells are clear. */
  ghost predicate Agrees<K, V>(cells: seq<Cell<K, V>>, home: K -> nat, zero: V, m: map<K, V>) {
    && Probed(Slots(cells), home)
    && (forall p :: 0 <= p < |cells| ==>
          match cells[p].slot
          case Free => cells[p].value == zero
          case Held(k) => k in m && m[k] == cells[p].value)
    && (forall k :: k in m ==> Holds(Slots(cells), k))
  }

  /** The search is settled by the map. */
  lemma {:induction false} SearchAgrees<K, V>(cells: seq<Cell<K, V>>, home: K -> nat, zero: V, m: map<K, V>, k: K,
                                              p: int)
    requires Agrees(cells, home, zero, m) && StopsAt(Slots(cells), home(k), k, p)
    ensures k in m <==> p >= 0 && cells[p].slot == Held(k)
    ensures k !in m && p >= 0 ==> cells[p] == Cell(Free, zero)
    ensures p < 0 <==> forall q :: 0 <= q < |cells| ==> cells[q].slot.Held? && cells[q].slot.key != k
  {
    SearchExact(Slots(cells), home, k, p);
    if p >= 0 && cells[p].slot == Held(k) { assert Slots(cells)[p] == Held(k); }
    if p < 0 {
      forall q | 0 <= q < |cells| ensures cells[q].slot.Held? && cells[q].slot.key != k {
        assert Slots(cells)[q].Held? && Slots(cells)[q].key != k;
      }
    } else {
      assert !(Slots(cells)[p].Held? && Slots(cells)[p].key != k);
    }
  }

  /** Storing a value where the search for its key stopped updates the map. */
  lemma {:induction false} PutAgrees<K, V>(cells: seq<Cell<K, V>>, home: K -> nat, zero: V, m: map<K, V>, k: K,
                                           p: nat, v: V)
    requires Agrees(cells, home, zero, m) && StopsAt(Slots(cells), home(k), k, p)
    ensures Agrees(cells[p := Cell(Held(k), v)], home, zero, m[k := v])
  {
    var after, m' := cells[p := Cell(Held(k), v)], m[k := v];
    EnterKeeps(Slots(cells), home, k, p);
    assert Slots(after) == Slots(cells)[p := Held(k)];
    forall q | 0 <= q < |after| && q != p && after[q].slot.Held?
      ensures after[q].slot.key in m' && m'[after[q].slot.key] == after[q].value
    {
      if after[q].slot.key == k { Unique(Slots(after), home, p, q); }
    }
    forall x | x in m' ensures Holds(Slots(after), x) {
      if x == k {
        assert Slots(after)[p] == Held(k);
      } else {
        var q :| 0 <= q < |cells| && Slots(cells)[q] == Held(x);
        assert Slots(after)[q] == Held(x);
      }
    }
  }

  // ---- How many keys there are ----

  function KeysTo<K>(slots: seq<Slot<K>>, n: nat): set<K>
    requires n <= |slots|
  {
    set p | 0 <= p < n && slots[p].Held? :: slots[p].key
  }

  function HeldTo<K>(slots: seq<Slot<K>>, n: nat): (c: nat)
    requires n <= |slots|
    ensures c <= n
  {
    if n == 0 then 0 else HeldTo(slots, n - 1) + (if slots[n - 1].Held? then 1 else 0)
  }

  lemma {:induction false} KeysCount<K>(slots: seq<Slot<K>>, home: K -> nat, n: nat)
    requires Probed(slots, home) && n <= |slots|
    ensures |KeysTo(slots, n)| == HeldTo(slots, n)
    decreases n
  {
    if n == 0 {
      assert KeysTo(slots, n) == {};
    } else {
      KeysCount(slots, home, n - 1);
      var before, last := KeysTo(slots, n - 1), slots[n - 1];
      if last.Held? {
        if last.key in before {
          var p :| 0 <= p < n - 1 && slots[p].Held? && slots[p].key == last.key;
          Unique(slots, home, p, n - 1);
        }
        assert KeysTo(slots, n) == before + {last.key};
      } else {
        assert KeysTo(slots, n) == before;
      }
    }
  }

  lemma {:induction false} HeldAll<K>(slots: seq<Slot<K>>, n: nat)
    requires n <= |slots|
    ensures HeldTo(slots, n) == n <==> forall p :: 0 <= p < n ==> slots[p].Held?
    decreases n
  {
    if n > 0 { HeldAll(slots, n - 1); }
  }

  /** A table has no more keys than cells, and is full exactly when it has as many. */
  lemma {:induction false} Subset<T>(a: set<T>, b: set<T>)
    requires a <= b
    ensures |a| <= |b|
    decreases |a|
  {
    if x :| x in a { Subset(a - {x}, b - {x}); }
  }

  lemma {:induction false} SizeAgrees<K, V>(cells: seq<Cell<K, V>>, home: K -> nat, zero: V, m: map<K, V>)
    requires Agrees(cells, home, zero, m)
    ensures |m.Keys| <= |cells|
    ensures |m.Keys| == |cells| <==> forall p :: 0 <= p < |cells| ==> cells[p].slot.Held?
  {
    var slots, n := Slots(cells), |cells|;
    forall k ensures k in m.Keys <==> k in KeysTo(slots, n) {
      if k in m {
        var p :| 0 <= p < n && slots[p] == Held(k);
      }
      if k in KeysTo(slots, n) {
        var p :| 0 <= p < n && slots[p].Held? && slots[p].key == k;
        assert cells[p].slot == Held(k);
      }
    }
    assert m.Keys == KeysTo(slots, n);
    KeysCount(slots, home, n);
    HeldAll(slots, n);
  }
}
