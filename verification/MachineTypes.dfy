/** The C integer widths the firmware uses, and the little-endian layout of its packed structs. */
module MachineTypes {

  type uint8 = x: int | 0 <= x < 0x100
  type uint16 = x: int | 0 <= x < 0x1_0000
  type uint32 = x: int | 0 <= x < 0x1_0000_0000
  type uint64 = x: int | 0 <= x < 0x1_0000_0000_0000_0000

  const WRAP32 := 0x1_0000_0000

  datatype Option<+T> = None | Some(value: T)

  function Min(a: int, b: int): int {
    if a <= b then a else b
  }

  function Max(a: int, b: int): int {
    if a >= b then a else b
  }

  function Zeros(n: nat): (s: seq<uint8>)
    ensures |s| == n && forall i :: 0 <= i < n ==> s[i] == 0
  {
    seq(n, _ => 0)
  }

  /** The number whose little-endian bytes are `bytes`. */
  function FromLe(bytes: seq<uint8>): nat {
    if bytes == [] then 0 else bytes[0] + 0x100 * FromLe(bytes[1..])
  }

  /** The `n` low little-endian bytes of `value`. */
  function ToLe(value: nat, n: nat): (bytes: seq<uint8>)
    ensures |bytes| == n
  {
    if n == 0 then [] else [value % 0x100] + ToLe(value / 0x100, n - 1)
  }

  function Pow2(n: nat): (p: nat)
    ensures p >= 1
  {
    if n == 0 then 1 else 2 * Pow2(n - 1)
  }

  lemma {:induction false} Pow2Add(m: nat, n: nat)
    ensures Pow2(m + n) == Pow2(m) * Pow2(n)
  {
    if m > 0 { Pow2Add(m - 1, n); }
  }

  /** Bit `k` of a number: the coefficient of 2^k. */
  predicate BitAt(a: nat, k: nat) {
    a / Pow2(k) % 2 == 1
  }

  /** The bits above the lowest are those of the half. */
  lemma {:induction false} BitAbove(a: nat, k: nat)
    ensures BitAt(a, k + 1) <==> BitAt(a / 2, k)
    ensures BitAt(a, 0) <==> a % 2 == 1
  {
    HalfThenDivide(a, Pow2(k));
  }

  /** The multiples of d. */
  lemma {:induction false} Multiples(d: int, p: int, q: int)
    requires d > 0
    ensures d * (p - q) == d * p - d * q
    ensures p > q ==> d * (p - q) >= d
    ensures p < q ==> d * (p - q) <= -d
  {
    if p > q { AtLeastOnce(d, p - q); }
    if p < q { AtLeastOnce(d, q - p); }
  }

  lemma {:induction false} AtLeastOnce(d: int, n: int)
    requires d > 0 && n >= 1
    ensures d * n >= d
  {
    if n > 1 { AtLeastOnce(d, n - 1); }
  }

  lemma {:induction false} QuotientIs(a: nat, d: nat, q: nat, r: nat)
    requires a == d * q + r && r < d
    ensures a / d == q && a % d == r
  {
    Divided(a, d);
    Multiples(d, a / d, q);
  }

  lemma {:induction false} Divided(a: nat, d: nat)
    requires d > 0
    ensures a == d * (a / d) + a % d && 0 <= a % d < d
  {
  }

  lemma {:induction false} HalfThenDivide(a: nat, d: nat)
    requires d > 0
    ensures a / (2 * d) == a / 2 / d
  {
    var q, r := a / 2 / d, a / 2 % d;
    Divided(a / 2, d);
    assert a == 2 * (d * q) + (2 * r + a % 2);
    assert 2 * (d * q) == (2 * d) * q;
    QuotientIs(a, 2 * d, q, 2 * r + a % 2);
  }

  lemma {:induction false} DivideByByte(a: nat, d: nat)
    requires d > 0
    ensures a / (0x100 * d) == a / 0x100 / d
  {
    var q, r := a / 0x100 / d, a / 0x100 % d;
    Divided(a / 0x100, d);
    assert a == 0x100 * (d * q) + (0x100 * r + a % 0x100);
    assert 0x100 * (d * q) == (0x100 * d) * q;
    QuotientIs(a, 0x100 * d, q, 0x100 * r + a % 0x100);
  }

  lemma {:induction false} ByteAbove(a: nat, i: nat)
    ensures a / Pow2(8 * (i + 1)) == a / 0x100 / Pow2(8 * i)
    ensures Pow2(8 * (i + 1)) == 0x100 * Pow2(8 * i)
  {
    assert Pow2(8) == 0x100;
    Pow2Add(8, 8 * i);
    DivideByByte(a, Pow2(8 * i));
  }

  lemma {:induction false} FromLeSplit(bytes: seq<uint8>)
    requires bytes != []
    ensures FromLe(bytes) % 0x100 == bytes[0] && FromLe(bytes) / 0x100 == FromLe(bytes[1..])
  {
  }

  /** The first byte is the lowest: byte `i` counts 256^i. */
  lemma {:induction false} FromLeBytes(bytes: seq<uint8>, i: nat)
    requires i < |bytes|
    ensures FromLe(bytes) / Pow2(8 * i) % 0x100 == bytes[i]
  {
    FromLeSplit(bytes);
    hide FromLe;
    if i > 0 {
      FromLeBytes(bytes[1..], i - 1);
      ByteAbove(FromLe(bytes), i - 1);
      hide Pow2;
    }
  }

  lemma {:induction false} FromLeRange(bytes: seq<uint8>)
    ensures FromLe(bytes) < Pow2(8 * |bytes|)
  {
    if bytes != [] {
      FromLeRange(bytes[1..]);
      ByteAbove(0, |bytes| - 1);
      hide Pow2;
    }
  }

  lemma {:induction false} ToLeBytes(value: nat, n: nat, i: nat)
    requires i < n
    ensures ToLe(value, n)[i] == value / Pow2(8 * i) % 0x100
  {
    if i > 0 {
      ToLeBytes(value / 0x100, n - 1, i - 1);
      ByteAbove(value, i - 1);
      hide Pow2;
    }
  }

  /** Four bytes as a number, the lowest first. */
  function Word(a: int, b: int, c: int, d: int): int {
    a + 0x100 * b + 0x1_0000 * c + 0x100_0000 * d
  }

  lemma {:induction false} FromLeWord(bytes: seq<uint8>)
    requires |bytes| >= 4
    ensures FromLe(bytes) == Word(bytes[0], bytes[1], bytes[2], bytes[3]) + WRAP32 * FromLe(bytes[4..])
  {
    assert FromLe(bytes) == bytes[0] + 0x100 * FromLe(bytes[1..]);
    assert FromLe(bytes[1..]) == bytes[1] + 0x100 * FromLe(bytes[1..][1..]);
    assert FromLe(bytes[1..][1..]) == bytes[2] + 0x100 * FromLe(bytes[1..][1..][1..]);
    assert FromLe(bytes[1..][1..][1..]) == bytes[3] + 0x100 * FromLe(bytes[1..][1..][1..][1..]);
    assert bytes[1..][1..][1..][1..] == bytes[4..];
  }

  lemma {:induction false} FromLe4(bytes: seq<uint8>)
    requires |bytes| == 4
    ensures FromLe(bytes) == Word(bytes[0], bytes[1], bytes[2], bytes[3]) < WRAP32
  {
    FromLeWord(bytes);
  }

  lemma {:induction false} FromLe8(bytes: seq<uint8>)
    requires |bytes| == 8
    ensures FromLe(bytes) == Word(bytes[0], bytes[1], bytes[2], bytes[3])
      + 0x1_0000_0000 * Word(bytes[4], bytes[5], bytes[6], bytes[7])
  {
    FromLeWord(bytes);
    FromLe4(bytes[4..]);
    hide FromLe; hide Word;
  }
}
