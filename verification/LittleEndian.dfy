/** Little-endian integers, as the MTP packets and the binder buffers carry them. */
module LittleEndian {
  import opened Basics

  type Byte = n: int | 0 <= n < 256

  type Unit = n: int | 0 <= n < 0x1_0000

  function Pow256(k: nat): (p: nat)
    ensures p > 0
  {
    if k == 0 then 1 else 256 * Pow256(k - 1)
  }

  /** The low k bytes of v, lowest first; shifts of negative values are arithmetic. */
  function Le(v: int, k: nat): (bs: seq<Byte>)
    ensures |bs| == k
    decreases k
  {
    if k == 0 then [] else [v % 256] + Le(v / 256, k - 1)
  }

  function FromLe(bs: seq<Byte>): nat {
    if bs == [] then 0 else bs[0] + 256 * FromLe(bs[1..])
  }

  /** An unsigned reading of k bytes taken as a signed integer. */
  function Signed(u: nat, k: nat): int {
    if 2 * u >= Pow256(k) then u - Pow256(k) else u
  }

  predicate InRange(v: int, k: nat, signed: bool) {
    if signed then 0 - Pow256(k) <= 2 * v < Pow256(k) else 0 <= v < Pow256(k)
  }

  function Interpreted(bs: seq<Byte>, signed: bool): int {
    if signed then Signed(FromLe(bs), |bs|) else FromLe(bs)
  }

  lemma {:induction false} FromLeBound(bs: seq<Byte>)
    ensures FromLe(bs) < Pow256(|bs|)
  {
    if bs != [] { FromLeBound(bs[1..]); }
  }

  lemma {:induction false} LeWraps(v: int, k: nat, m: int)
    requires 0 <= v + m * Pow256(k) < Pow256(k)
    ensures FromLe(Le(v, k)) == v + m * Pow256(k)
    decreases k
  {
    if k == 0 {
      assert v + m == 0;
    } else {
      var p := Pow256(k - 1);
      assert m * Pow256(k) == 256 * (m * p);
      LeWraps(v / 256, k - 1, m);
      assert Le(v, k)[1..] == Le(v / 256, k - 1);
    }
  }

  /** Writing and reading back any integer of the width and sign gives that integer. */
  lemma IntegerRoundTrip(v: int, k: nat, signed: bool)
    requires InRange(v, k, signed)
    ensures Interpreted(Le(v, k), signed) == v
  {
    if v < 0 { LeWraps(v, k, 1); } else { LeWraps(v, k, 0); }
  }

  /** `b` as it is after bytes i..i+|v|-1 are set to v. */
  function Overlay(b: seq<Byte>, i: nat, v: seq<Byte>): (r: seq<Byte>)
    requires i + |v| <= |b|
    ensures |r| == |b|
  {
    b[..i] + v + b[i + |v|..]
  }

  lemma Le2(v: int)
    ensures Le(v, 2) == [v % 256, v / 0x100 % 256]
  {
    assert Le(v / 256, 1) == [v / 256 % 256];
  }

  lemma Le4(v: int)
    ensures Le(v, 4) == [v % 256, v / 0x100 % 256, v / 0x1_0000 % 256, v / 0x100_0000 % 256]
  {
    Le2(v / 0x1_0000);
    assert Le(v / 256, 3) == [v / 256 % 256] + Le(v / 256 / 256, 2);
    assert v / 256 / 256 == v / 0x1_0000;
  }

  lemma Pow4()
    ensures Pow256(4) == 0x1_0000_0000
  {
    assert Pow256(2) == 0x1_0000;
  }

  lemma {:induction false} LeConcat(v: int, a: nat, b: nat)
    ensures Le(v, a + b) == Le(v, a) + Le(v / Pow256(a), b)
    decreases a
  {
    if a > 0 {
      LeConcat(v / 256, a - 1, b);
      DivDiv(v, Pow256(a - 1));
    }
  }

  lemma DivDiv(v: int, p: nat)
    requires p > 0
    ensures v / 256 / p == v / (256 * p)
  {
    var q, r := v / 256, v % 256;
    var s, t := q / p, q % p;
    assert v == 256 * p * s + (256 * t + r);
    assert 0 <= 256 * t + r < 256 * p;
    QuotientUnique(v, 256 * p, s, 256 * t + r);
  }

  lemma {:induction false} FromLeConcat(a: seq<Byte>, b: seq<Byte>)
    ensures FromLe(a + b) == FromLe(a) + Pow256(|a|) * FromLe(b)
  {
    if a == [] {
      assert a + b == b;
    } else {
      FromLeConcat(a[1..], b);
      assert (a + b)[1..] == a[1..] + b;
      assert 256 * (Pow256(|a| - 1) * FromLe(b)) == Pow256(|a|) * FromLe(b);
    }
  }

  /** Byte i as an integer of any size. */
  function Octet(b: seq<Byte>, i: nat): int
    requires i < |b|
  {
    b[i]
  }

  lemma FromLe1(b: seq<Byte>)
    requires |b| == 1
    ensures FromLe(b) == Octet(b, 0)
  {
    assert b[1..] == [];
  }

  lemma FromLe2(b: seq<Byte>)
    requires |b| == 2
    ensures FromLe(b) == Octet(b, 0) + 0x100 * Octet(b, 1)
  {
    assert FromLe(b[1..]) == b[1] + 256 * FromLe(b[1..][1..]);
  }

  lemma FromLe4(b: seq<Byte>)
    requires |b| == 4
    ensures FromLe(b) == Octet(b, 0) + 0x100 * Octet(b, 1) + 0x1_0000 * Octet(b, 2) + 0x100_0000 * Octet(b, 3)
  {
    FromLe2(b[..2]);
    FromLe2(b[2..]);
    FromLeConcat(b[..2], b[2..]);
    assert b == b[..2] + b[2..];
    assert Pow256(2) == 0x1_0000;
  }

  lemma FromLe8(b: seq<Byte>)
    requires |b| == 8
    ensures FromLe(b) == Octet(b, 0) + 0x100 * Octet(b, 1) + 0x1_0000 * Octet(b, 2) + 0x100_0000 * Octet(b, 3)
                         + 0x1_0000_0000 * Octet(b, 4) + 0x100_0000_0000 * Octet(b, 5)
                         + 0x1_0000_0000_0000 * Octet(b, 6) + 0x100_0000_0000_0000 * Octet(b, 7)
  {
    FromLe4(b[..4]);
    FromLe4(b[4..]);
    FromLeConcat(b[..4], b[4..]);
    assert b == b[..4] + b[4..];
    Pow4();
  }

  /** Byte i is the i-th lowest of the number. */
  lemma {:induction false} LeIs(v: int, k: nat, i: nat)
    requires i < k
    ensures Le(v, k)[i] == v / Pow256(i) % 256
    decreases i
  {
    if i > 0 {
      LeIs(v / 256, k - 1, i - 1);
      DivDiv(v, Pow256(i - 1));
    }
  }
}
