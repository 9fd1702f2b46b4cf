/** Bytes and the bit tables behind bracket expressions: bittab, PLACE and ISTHERE. */
module RegexpBits {

  type byte = x: int | 0 <= x < 256

  /** A byte that can occur inside a C string. */
  type letter = x: int | 1 <= x < 256 witness 1

  function Pow2(n: nat): nat {
    if n == 0 then 1 else 2 * Pow2(n - 1)
  }

  /** Whether bit k of b is set: the test (b & bittab[k]) != 0. */
  predicate Bit(b: nat, k: nat) {
    if k == 0 then b % 2 == 1 else Bit(b / 2, k - 1)
  }

  /** b | bittab[k]. */
  function OrBit(b: nat, k: nat): nat {
    if k == 0 then b - b % 2 + 1 else 2 * OrBit(b / 2, k - 1) + b % 2
  }

  /** Taking off the lowest bit. */
  lemma {:induction false} Halve(bit: nat, rest: nat)
    requires bit <= 1
    ensures (bit + 2 * rest) / 2 == rest && (bit + 2 * rest) % 2 == bit
  {}

  lemma {:induction false} OrBitAdds(b: nat, k: nat)
    ensures OrBit(b, k) == if Bit(b, k) then b else b + Pow2(k)
  {
    if k > 0 { OrBitAdds(b / 2, k - 1); }
  }

  lemma {:induction false} OrBitFits(b: nat, k: nat, n: nat)
    requires b < Pow2(n) && k < n
    ensures OrBit(b, k) < Pow2(n)
    decreases k
  {
    var half := b / 2;
    assert b == b % 2 + 2 * half && Pow2(n) == 2 * Pow2(n - 1);
    assert half < Pow2(n - 1);
    if k > 0 { OrBitFits(half, k - 1, n - 1); }
  }

  /** The n-bit number whose bit k says whether base + k is a member. */
  function Pack(members: set<int>, base: int, n: nat): (b: nat)
    ensures b < Pow2(n)
    decreases n, members
  {
    if n == 0 then 0
    else InBit(members, base) + 2 * Pack(members, base + 1, n - 1)
  }

  function InBit(members: set<int>, x: int): (b: nat)
    ensures b <= 1
  {
    if x in members then 1 else 0
  }

  lemma {:induction false} PackBit(members: set<int>, base: int, n: nat, k: nat)
    requires k < n
    ensures Bit(Pack(members, base, n), k) <==> base + k in members
    decreases n
  {
    Halve(InBit(members, base), Pack(members, base + 1, n - 1));
    if k > 0 { PackBit(members, base + 1, n - 1, k - 1); }
  }

  /** Setting a bit of a packed byte packs one more member. */
  lemma {:induction false} PackOr(members: set<int>, base: int, n: nat, k: nat)
    requires k < n
    ensures OrBit(Pack(members, base, n), k) == Pack(members + {base + k}, base, n)
    decreases n
  {
    var more, rest := members + {base + k}, Pack(members, base + 1, n - 1);
    Halve(InBit(members, base), rest);
    if k > 0 {
      PackOr(members, base + 1, n - 1, k - 1);
      assert base + 1 + (k - 1) == base + k;
      assert InBit(more, base) == InBit(members, base);
    } else {
      PackAgree(members, more, base + 1, n - 1);
      assert InBit(more, base) == 1;
    }
  }

  /** Inverting the n bits packs the complement. */
  lemma {:induction false} PackInvert(members: set<int>, others: set<int>, base: int, n: nat)
    requires forall x :: base <= x < base + n ==> (x in members <==> x !in others)
    ensures Pow2(n) - 1 - Pack(members, base, n) == Pack(others, base, n)
    decreases n
  {
    if n > 0 { PackInvert(members, others, base + 1, n - 1); }
  }

  lemma {:induction false} PackAgree(members: set<int>, others: set<int>, base: int, n: nat)
    requires forall x :: base <= x < base + n ==> (x in members <==> x in others)
    ensures Pack(members, base, n) == Pack(others, base, n)
    decreases n
  {
    if n > 0 { PackAgree(members, others, base + 1, n - 1); }
  }

  /** Byte j of a bit table. */
  function PackByte(members: set<int>, j: nat): byte {
    assert Pow2(8) == 256;
    Pack(members, 8 * j, 8)
  }

  /** The n-byte bit table of a set of byte values. */
  function Bitmap(members: set<int>, n: nat): (bits: seq<byte>)
    ensures |bits| == n
  {
    seq(n, (j: nat) => PackByte(members, j))
  }

  /** ISTHERE(c) on a table that starts at offset ep. */
  predicate IsThere(code: seq<byte>, ep: nat, c: byte)
    requires ep + c / 8 < |code|
  {
    Bit(code[ep + c / 8], c % 8)
  }

  lemma {:induction false} BitmapHas(members: set<int>, n: nat, c: byte)
    requires c < 8 * n
    ensures IsThere(Bitmap(members, n), 0, c) <==> c in members
  {
    PackBit(members, 8 * (c / 8), 8, c % 8);
    assert 8 * (c / 8) + c % 8 == c;
  }
}
