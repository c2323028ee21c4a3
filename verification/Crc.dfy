/** The bit-serial frame checksum: a degree-24 cyclic redundancy check whose register
    starts at 0x777777 and which feeds every byte least significant bit first. */
module Crc {
  import opened MachineTypes
  import opened Gf2

  /** G(x) = x^24 + x^23 + x^10 + x^6 + x^5 + x + 1. */
  const POLYNOMIAL: Poly := 0x1800463
  const INITIAL: uint32 := 0x777777
  const DEGREE: nat := 24

  function Bit(b: bool): nat {
    if b then 1 else 0
  }

  predicate Bit24(r: uint32) {
    r / 0x100_0000 % 2 == 1
  }

  function Reduce(r: uint32): uint32 {
    Powers(); XorBound(r, POLYNOMIAL, 32);
    Xor(r, POLYNOMIAL)
  }

  /** One turn of the inner loop: shift a bit in, and reduce when bit 24 comes up. */
  function Shift(reg: uint32, b: bool): uint32 {
    var r: uint32 := (2 * reg + Bit(b)) % WRAP32;
    if Bit24(r) then Reduce(r) else r
  }

  /** The register after the bits of a message, in processing order. */
  function Register(reg: uint32, bits: seq<bool>): uint32 {
    if bits == [] then reg else Shift(Register(reg, bits[..|bits| - 1]), bits[|bits| - 1])
  }

  /** The polynomial whose coefficients are `bits`, highest power first. */
  function Value(bits: seq<bool>): Poly {
    if bits == [] then 0 else 2 * Value(bits[..|bits| - 1]) + Bit(bits[|bits| - 1])
  }

  /** The `n` low bits of a byte, least significant first. */
  function LowBits(b: nat, n: nat): (bits: seq<bool>)
    ensures |bits| == n
  {
    if n == 0 then [] else [b % 2 == 1] + LowBits(b / 2, n - 1)
  }

  function BitsOf(bytes: seq<uint8>): (bits: seq<bool>)
    ensures |bits| == 8 * |bytes|
  {
    if bytes == [] then [] else BitsOf(bytes[..|bytes| - 1]) + LowBits(bytes[|bytes| - 1], 8)
  }

  function Checksum(bytes: seq<uint8>): uint32 {
    Register(INITIAL, BitsOf(bytes))
  }

  /** The outer loop walks the bytes, the inner one the bits of a byte. */
  method Compute(bytes: seq<uint8>) returns (reg: uint32)
    ensures reg == Checksum(bytes)
    ensures reg < 0x100_0000
  {
    hide Reduce; hide Register;
    reg := INITIAL;
    ghost var done := [];
    RegisterStep(INITIAL, done, false);
    for k := 0 to |bytes|
      invariant done == BitsOf(bytes[..k]) && reg == Register(INITIAL, done)
    {
      var b: uint8 := bytes[k];
      assert bytes[..k + 1][..k] == bytes[..k];
      for i := 0 to 8
        invariant done + LowBits(b, 8 - i) == BitsOf(bytes[..k + 1])
        invariant reg == Register(INITIAL, done)
      {
        RegisterStep(reg, done, b % 2 == 1);
        assert done + LowBits(b, 8 - i) == (done + [b % 2 == 1]) + LowBits(b / 2, 7 - i);
        done := done + [b % 2 == 1];
        var r: uint32 := (2 * reg + b % 2) % WRAP32;
        b := b / 2;
        if Bit24(r) { r := Reduce(r); }
        reg := r;
      }
    }
    assert bytes[..|bytes|] == bytes;
    RegisterIsRemainder(INITIAL, done);
  }

  lemma {:induction false} RegisterStep(reg: uint32, done: seq<bool>, bit: bool)
    ensures Register(INITIAL, []) == INITIAL
    ensures reg == Register(INITIAL, done) ==> Register(INITIAL, done + [bit]) == Shift(reg, bit)
  {
    assert (done + [bit])[..|done|] == done;
  }

  lemma {:induction false} Powers()
    ensures Pow2(24) == 0x100_0000 && Pow2(25) == 0x200_0000 && Pow2(32) == WRAP32
    ensures Pow2(DEGREE) <= POLYNOMIAL < Pow2(DEGREE + 1)
  {
    assert Pow2(8) == 0x100;
    Pow2Add(8, 8); Pow2Add(16, 8); Pow2Add(24, 8);
  }

  // ----- The loop divides polynomials -----

  /** The decisions to reduce, as a polynomial. */
  function Quotient(start: uint32, bits: seq<bool>): Poly {
    if bits == [] then 0 else
      var n := |bits| - 1;
      2 * Quotient(start, bits[..n]) + (if 2 * Register(start, bits[..n]) + Bit(bits[n]) >= 0x100_0000 then 1 else 0)
  }

  /** start * x^n + message. */
  function Padded(start: uint32, bits: seq<bool>): Poly {
    Raise(start, |bits|) + Value(bits)
  }

  lemma {:induction false} PaddedGrows(start: uint32, bits: seq<bool>)
    requires bits != []
    ensures Padded(start, bits) == 2 * Padded(start, bits[..|bits| - 1]) + Bit(bits[|bits| - 1])
  {
  }

  lemma {:induction false} OneMoreBit(start: uint32, bits: seq<bool>)
    requires bits != []
    ensures var n := |bits| - 1;
            var reg := Register(start, bits[..n]);
            && Register(start, bits) == Shift(reg, bits[n])
            && Quotient(start, bits)
                 == 2 * Quotient(start, bits[..n]) + (if 2 * reg + Bit(bits[n]) >= 0x100_0000 then 1 else 0)
  {
    hide Shift;
  }

  /** After any message the register is below x^24 and is the remainder of
      start * x^n + message on division by G. */
  lemma {:induction false} RegisterIsRemainder(start: uint32, bits: seq<bool>)
    requires start < 0x100_0000
    ensures Register(start, bits) < 0x100_0000
    ensures Padded(start, bits) == Xor(Mul(Quotient(start, bits), POLYNOMIAL), Register(start, bits))
  {
    if bits == [] {
      XorZero(start);
    } else {
      var n := |bits| - 1;
      RegisterIsRemainder(start, bits[..n]);
      PaddedGrows(start, bits);
      OneMoreBit(start, bits);
      hide *;
      ShiftCases(Register(start, bits[..n]), bits[n]);
      DivisionStep(Padded(start, bits[..n]), Quotient(start, bits[..n]), Register(start, bits[..n]), bits[n]);
    }
  }

  lemma {:induction false} Bit24Set(r: uint32)
    requires r < 0x200_0000
    ensures Bit24(r) <==> r >= 0x100_0000
  {
  }

  lemma {:induction false} NoWrap(reg: uint32, bit: bool)
    requires reg < 0x100_0000
    ensures (2 * reg + Bit(bit)) % WRAP32 == 2 * reg + Bit(bit) < 0x200_0000
  {
  }

  lemma {:induction false} ShiftCases(reg: uint32, bit: bool)
    requires reg < 0x100_0000
    ensures var shifted := 2 * reg + Bit(bit);
            Shift(reg, bit) == if shifted < 0x100_0000 then shifted else Xor(shifted, POLYNOMIAL)
    ensures Shift(reg, bit) < 0x100_0000
  {
    hide Xor; hide Bit24;
    NoWrap(reg, bit);
    var shifted: uint32 := 2 * reg + Bit(bit);
    Bit24Set(shifted);
    if shifted >= 0x100_0000 { TopBitsCancel(shifted); }
    hide Bit;
  }

  lemma {:induction false} MulDoubled(q: Poly, g: Poly)
    ensures Mul(2 * q, g) == 2 * Mul(q, g)
    ensures Mul(2 * q + 1, g) == Xor(2 * Mul(q, g), g)
  {
    XorZero(2 * Mul(q, g));
    hide Xor;
    assert (2 * q) / 2 == q && (2 * q + 1) / 2 == q;
  }

  /** One turn of the loop is one step of long division. */
  lemma {:induction false} DivisionStep(whole: Poly, q: Poly, reg: uint32, bit: bool)
    requires reg < 0x100_0000 && whole == Xor(Mul(q, POLYNOMIAL), reg)
    ensures 2 * whole + Bit(bit) ==
      Xor(Mul(2 * q + (if 2 * reg + Bit(bit) >= 0x100_0000 then 1 else 0), POLYNOMIAL), Shift(reg, bit))
  {
    hide Xor; hide Mul; hide Shift;
    var product, shifted := Mul(q, POLYNOMIAL), 2 * reg + Bit(bit);
    XorShift(product, reg, 0, Bit(bit));
    ShiftCases(reg, bit); MulDoubled(q, POLYNOMIAL);
    AddTwice(2 * product, shifted, POLYNOMIAL);
  }

  lemma {:induction false} AddTwice(a: Poly, b: Poly, g: Poly)
    ensures Xor(Xor(a, g), Xor(b, g)) == Xor(a, b)
  {
    XorSwapsInner(a, g, b, g); XorSelf(g); XorZero(Xor(a, b));
  }

  /** Two polynomials of degree 24 add up to one of a lower degree. */
  lemma {:induction false} TopBitsCancel(r: Poly)
    requires 0x100_0000 <= r < 0x200_0000
    ensures Xor(r, POLYNOMIAL) < 0x100_0000
  {
    Powers();
    SubtractTop(r, 24);
    SubtractTop(POLYNOMIAL, 24);
    var low, low' := r - 0x100_0000, POLYNOMIAL - 0x100_0000;
    XorSwapsInner(0x100_0000, low, 0x100_0000, low');
    XorSelf(0x100_0000); XorZero(Xor(low, low'));
    XorBound(low, low', 24);
  }

  lemma {:induction false} SubtractTop(r: Poly, n: nat)
    requires Pow2(n) <= r < Pow2(n + 1)
    ensures Xor(Pow2(n), r - Pow2(n)) == r
  {
    if n == 0 {
      XorZero(1);
    } else {
      SubtractTop(r / 2, n - 1);
      XorShift(Pow2(n - 1), r / 2 - Pow2(n - 1), 0, r % 2);
      hide Xor;
    }
  }

  /** The register is the only remainder: whatever way the padded message is split into a
      multiple of G and a rest below x^24, the rest is the register. */
  lemma {:induction false} RemainderIsRegister(start: uint32, bits: seq<bool>, quotient: Poly, rest: Poly)
    requires start < 0x100_0000 && rest < 0x100_0000
    ensures Padded(start, bits) == Xor(Mul(quotient, POLYNOMIAL), rest)
        ==> rest == Register(start, bits) && quotient == Quotient(start, bits)
  {
    RegisterIsRemainder(start, bits);
    Powers();
    DivisionUnique(Quotient(start, bits), Register(start, bits), quotient, rest, POLYNOMIAL, DEGREE);
  }

  ghost predicate Multiple(p: Poly, g: Poly) {
    exists q: Poly :: p == Mul(q, g)
  }

  /** The sum of two messages of one length, as polynomials. */
  function Difference(a: seq<bool>, b: seq<bool>): Poly {
    Xor(Value(a), Value(b))
  }

  /** Two messages of one length have one register exactly when their difference is a
      multiple of G, whatever the register started from. */
  lemma {:induction false} EqualExactlyOnMultiples(start: uint32, a: seq<bool>, b: seq<bool>)
    requires start < 0x100_0000 && |a| == |b|
    ensures Register(start, a) == Register(start, b) <==> Multiple(Difference(a, b), POLYNOMIAL)
  {
    RegisterIsRemainder(start, a); RegisterIsRemainder(start, b);
    var p, q := Quotient(start, a), Quotient(start, b);
    var ra, rb := Register(start, a), Register(start, b);
    var pa, pb := Mul(p, POLYNOMIAL), Mul(q, POLYNOMIAL);
    PaddedDifference(start, a, b);
    XorSwapsInner(pa, ra, pb, rb);
    MulDistributes(p, q, POLYNOMIAL);
    assert Difference(a, b) == Xor(Mul(Xor(p, q), POLYNOMIAL), Xor(ra, rb));
    XorSelf(ra); XorZero(Mul(Xor(p, q), POLYNOMIAL));
    if Multiple(Difference(a, b), POLYNOMIAL) {
      var m: Poly :| Difference(a, b) == Mul(m, POLYNOMIAL);
      Powers(); XorBound(ra, rb, 24); XorZero(Mul(m, POLYNOMIAL));
      DivisionUnique(Xor(p, q), Xor(ra, rb), m, 0, POLYNOMIAL, DEGREE);
      XorIsZeroOnlyOnEqual(ra, rb);
    }
  }

  /** A common head drops out of the difference. */
  lemma {:induction false} PaddedDifference(start: uint32, a: seq<bool>, b: seq<bool>)
    requires |a| == |b|
    ensures Xor(Padded(start, a), Padded(start, b)) == Difference(a, b)
  {
    hide Xor;
    if a == [] {
      XorSelf(start); XorSelf(0);
    } else {
      var n := |a| - 1;
      PaddedDifference(start, a[..n], b[..n]);
      var u, v := Padded(start, a[..n]), Padded(start, b[..n]);
      var x, y := Bit(a[n]), Bit(b[n]);
      assert Padded(start, a) == 2 * u + x && Padded(start, b) == 2 * v + y;
      assert Value(a) == 2 * Value(a[..n]) + x && Value(b) == 2 * Value(b[..n]) + y;
      XorShift(u, v, x, y);
      XorShift(Value(a[..n]), Value(b[..n]), x, y);
    }
  }

  // ----- Bursts -----

  /** The messages agree outside bits [first, first + width). */
  ghost predicate DifferOnlyWithin<T>(a: seq<T>, b: seq<T>, first: nat, width: nat) {
    |a| == |b| && forall i :: 0 <= i < |a| && !(first <= i < first + width) ==> a[i] == b[i]
  }

  /** Any change confined to 24 consecutive bits changes the register. */
  lemma {:induction false} BurstIsDetected(start: uint32, a: seq<bool>, b: seq<bool>, first: nat)
    requires start < 0x100_0000
    requires a != b && DifferOnlyWithin(a, b, first, 24)
    ensures Register(start, a) != Register(start, b)
  {
    var burst, tail := BurstShape(a, b, first, 24);
    Powers();
    EqualExactlyOnMultiples(start, a, b);
    if Multiple(Difference(a, b), POLYNOMIAL) {
      var q: Poly :| Difference(a, b) == Mul(q, POLYNOMIAL);
      ShiftedBurstIsNoMultiple(burst, tail, q);
    }
  }

  /** The difference of such messages is a nonzero polynomial below x^width, shifted. */
  lemma {:induction false} BurstShape(a: seq<bool>, b: seq<bool>, first: nat, width: nat)
      returns (burst: Poly, tail: nat)
    requires a != b && DifferOnlyWithin(a, b, first, width)
    ensures 0 < burst < Pow2(width)
    ensures Difference(a, b) == Raise(burst, tail)
  {
    var n := |a| - 1;
    var x, y := Bit(a[n]), Bit(b[n]);
    XorShift(Value(a[..n]), Value(b[..n]), x, y);
    assert a == a[..n] + [a[n]] && b == b[..n] + [b[n]];
    if x == y {
      burst, tail := BurstShape(a[..n], b[..n], first, width);
      tail := tail + 1;
    } else {
      ShortDifference(a[..n], b[..n], first);
      burst, tail := Difference(a, b), 0;
      if n - first + 1 < width { Pow2Monotone(n - first + 1, width); }
    }
  }

  /** Messages that agree before `first` differ by a polynomial below x^(n - first). */
  lemma {:induction false} ShortDifference(a: seq<bool>, b: seq<bool>, first: nat)
    requires |a| == |b| && forall i :: 0 <= i < |a| && i < first ==> a[i] == b[i]
    ensures Difference(a, b) < Pow2(if |a| <= first then 0 else |a| - first)
  {
    if a == b {
      XorSelf(Value(a));
    } else {
      var n := |a| - 1;
      XorShift(Value(a[..n]), Value(b[..n]), Bit(a[n]), Bit(b[n]));
      ShortDifference(a[..n], b[..n], first);
    }
  }

  lemma {:induction false} Pow2Monotone(m: nat, n: nat)
    requires m <= n
    ensures Pow2(m) <= Pow2(n)
  {
    if m < n { Pow2Monotone(m, n - 1); }
  }

  /** G has constant term 1, so x can be divided out of a multiple of G. */
  lemma {:induction false} ShiftedBurstIsNoMultiple(burst: Poly, tail: nat, q: Poly)
    requires 0 < burst < 0x100_0000
    ensures Raise(burst, tail) != Mul(q, POLYNOMIAL)
    decreases tail
  {
    if Raise(burst, tail) == Mul(q, POLYNOMIAL) {
      if tail == 0 {
        Powers();
        MulDegree(q, POLYNOMIAL, DEGREE);
        assert false;
      } else {
        MulParity(q, POLYNOMIAL);
        ShiftedBurstIsNoMultiple(burst, tail - 1, q / 2);
      }
    }
  }

  // ----- Bytes -----

  lemma {:induction false} BitsAt(bytes: seq<uint8>, i: nat, j: nat)
    requires i < |bytes| && j < 8
    ensures BitsOf(bytes)[8 * i + j] == LowBits(bytes[i], 8)[j]
  {
    if i < |bytes| - 1 { BitsAt(bytes[..|bytes| - 1], i, j); }
  }

  lemma {:induction false} LowBitsAt(b: nat, n: nat, j: nat)
    requires j < n
    ensures LowBits(b, n)[j] <==> BitAt(b, j)
  {
    BitAbove(b, if j == 0 then 0 else j - 1);
    if j > 0 {
      hide BitAt;
      LowBitsAt(b / 2, n - 1, j - 1);
    }
  }

  /** Bytes are taken in order, and the bits of a byte from the lowest to the highest. */
  lemma {:induction false} BitOrder(bytes: seq<uint8>, i: nat, j: nat)
    requires i < |bytes| && j < 8
    ensures BitsOf(bytes)[8 * i + j] <==> BitAt(bytes[i], j)
  {
    BitsAt(bytes, i, j);
    LowBitsAt(bytes[i], 8, j);
  }

  // ----- The checksum, from the bytes alone -----

  /** The polynomial of a message of n bytes: bit j of byte i is the coefficient of x^(8n - 1 - 8i - j). */
  ghost predicate Spells(message: Poly, bytes: seq<uint8>) {
    var n := 8 * |bytes|;
    && message < Pow2(n)
    && forall i, j :: 0 <= i < |bytes| && 0 <= j < 8 ==> (BitAt(message, n - 1 - 8 * i - j) <==> BitAt(bytes[i], j))
  }

  lemma {:induction false} ValueBits(bits: seq<bool>)
    ensures Value(bits) < Pow2(|bits|)
    ensures forall k :: 0 <= k < |bits| ==> (BitAt(Value(bits), |bits| - 1 - k) <==> bits[k])
  {
    if bits != [] {
      var n := |bits| - 1;
      var high := bits[..n];
      ValueBits(high);
      assert Value(bits) == 2 * Value(high) + Bit(bits[n]) && Value(bits) / 2 == Value(high);
      hide BitAt; hide Value;
      forall k | 0 <= k < |bits| ensures BitAt(Value(bits), n - k) <==> bits[k] {
        if k == n {
          BitAbove(Value(bits), 0);
        } else {
          BitAbove(Value(bits), n - k - 1);
          assert BitAt(Value(high), |high| - 1 - k) <==> high[k];
        }
      }
    }
  }

  lemma {:induction false} ValueSpells(bytes: seq<uint8>)
    ensures Spells(Value(BitsOf(bytes)), bytes)
  {
    var bits := BitsOf(bytes);
    ValueBits(bits);
    forall i, j | 0 <= i < |bytes| && 0 <= j < 8
      ensures BitAt(Value(bits), 8 * |bytes| - 1 - 8 * i - j) <==> BitAt(bytes[i], j)
    {
      BitOrder(bytes, i, j);
      assert BitAt(Value(bits), |bits| - 1 - (8 * i + j)) <==> bits[8 * i + j];
    }
  }

  lemma {:induction false} SpellingIsUnique(p: Poly, q: Poly, bytes: seq<uint8>)
    requires Spells(p, bytes) && Spells(q, bytes)
    ensures p == q
  {
    var n := 8 * |bytes|;
    hide BitAt;
    forall k | 0 <= k < n ensures BitAt(p, k) <==> BitAt(q, k) {
      var i, j := (n - 1 - k) / 8, (n - 1 - k) % 8;
      assert n - 1 - 8 * i - j == k && 0 <= i < |bytes| && 0 <= j < 8;
      assert BitAt(p, n - 1 - 8 * i - j) <==> BitAt(bytes[i], j);
      assert BitAt(q, n - 1 - 8 * i - j) <==> BitAt(bytes[i], j);
    }
    BitsDetermine(p, q, n);
  }

  /** The checksum of n bytes is the remainder of 0x777777 x^(8n) + message on division by G, whose code is
      0x1800463: there is a quotient that shows it, and no other number below x^24 is a remainder. */
  lemma {:induction false} ChecksumIsRemainder(bytes: seq<uint8>, message: Poly) returns (quotient: Poly)
    requires Spells(message, bytes)
    ensures 0x777777 * Pow2(8 * |bytes|) + message == Xor(Mul(quotient, 0x1800463), Checksum(bytes))
    ensures Checksum(bytes) < 0x100_0000
    ensures forall q: nat, rest: nat ::
      (rest < 0x100_0000 && 0x777777 * Pow2(8 * |bytes|) + message == Xor(Mul(q, 0x1800463), rest))
      ==> rest == Checksum(bytes)
  {
    var bits := BitsOf(bytes);
    ValueSpells(bytes);
    SpellingIsUnique(message, Value(bits), bytes);
    RaiseIsProduct(0x777777, |bits|);
    RegisterIsRemainder(INITIAL, bits);
    quotient := Quotient(INITIAL, bits);
    hide Xor; hide Mul; hide Register; hide Quotient; hide Value; hide Raise;
    forall q: nat, rest: nat | rest < 0x100_0000 && Padded(INITIAL, bits) == Xor(Mul(q, POLYNOMIAL), rest)
      ensures rest == Checksum(bytes)
    {
      RemainderIsRegister(INITIAL, bits, q, rest);
    }
  }

  lemma {:induction false} LowBitsInjective(a: nat, b: nat, n: nat)
    requires a < Pow2(n) && b < Pow2(n) && LowBits(a, n) == LowBits(b, n)
    ensures a == b
  {
    if n > 0 {
      var s, t := LowBits(a, n), LowBits(b, n);
      assert s[1..] == LowBits(a / 2, n - 1) && t[1..] == LowBits(b / 2, n - 1);
      assert s[0] == t[0];
      LowBitsInjective(a / 2, b / 2, n - 1);
    }
  }

  lemma {:induction false} BitsInjective(a: seq<uint8>, b: seq<uint8>)
    requires |a| == |b| && BitsOf(a) == BitsOf(b)
    ensures a == b
  {
    forall i | 0 <= i < |a| ensures a[i] == b[i] {
      forall j | 0 <= j < 8 ensures LowBits(a[i], 8)[j] == LowBits(b[i], 8)[j] {
        BitsAt(a, i, j); BitsAt(b, i, j);
      }
      assert LowBits(a[i], 8) == LowBits(b[i], 8);
      assert Pow2(8) == 0x100;
      LowBitsInjective(a[i], b[i], 8);
    }
  }

  /** Any change confined to three adjacent bytes changes the checksum. */
  lemma {:induction false} ByteBurstIsDetected(a: seq<uint8>, b: seq<uint8>, first: nat)
    requires a != b && DifferOnlyWithin(a, b, first, 3)
    ensures Checksum(a) != Checksum(b)
  {
    var s, t := BitsOf(a), BitsOf(b);
    forall k | 0 <= k < |s| && !(8 * first <= k < 8 * first + 24) ensures s[k] == t[k] {
      BitsAt(a, k / 8, k % 8); BitsAt(b, k / 8, k % 8);
    }
    if s == t { BitsInjective(a, b); }
    BurstIsDetected(INITIAL, s, t, 8 * first);
  }
}
