/** Parsing of hexadecimal numbers, as used for node identities on the command line. */
module Utility {
  import opened MachineTypes

  const MAP := "0123456789abcdef"

  /** tolower of the C locale. */
  function ToLower(c: char): char {
    if 'A' <= c <= 'Z' then c + ' ' else c
  }

  /** The value of a hexadecimal digit in either case, 16 for any other character. */
  function Digit(c: char): nat {
    if '0' <= c <= '9' then c as int - '0' as int
    else if 'a' <= c <= 'f' then 10 + (c as int - 'a' as int)
    else if 'A' <= c <= 'F' then 10 + (c as int - 'A' as int)
    else 16
  }

  predicate AllDigits(s: string) {
    forall i :: 0 <= i < |s| ==> Digit(s[i]) < 16
  }

  /** The number a string of digits stands for. */
  function Number(s: string): nat {
    if s == [] then 0 else 16 * Number(s[..|s| - 1]) + Digit(s[|s| - 1])
  }

  lemma {:induction false} MapEntry(j: nat)
    requires j < 16
    ensures MAP[j] as int == if j < 10 then '0' as int + j else 'a' as int + (j - 10)
  {
    assert MAP[0] == '0' && MAP[1] == '1' && MAP[2] == '2' && MAP[3] == '3' && MAP[4] == '4' && MAP[5] == '5';
    assert MAP[6] == '6' && MAP[7] == '7' && MAP[8] == '8' && MAP[9] == '9' && MAP[10] == 'a' && MAP[11] == 'b';
    assert MAP[12] == 'c' && MAP[13] == 'd' && MAP[14] == 'e' && MAP[15] == 'f';
  }

  /** The search in the map finds the digit's value. */
  lemma {:induction false} MapIsDigits(c: char, j: nat)
    requires j < 16
    ensures ToLower(c) == MAP[j] <==> Digit(c) == j
  {
    MapEntry(j);
  }

  /** A digit has the value of its place, in small or capital letters, and nothing else is a digit. */
  lemma {:induction false} DigitExactly(c: char, v: nat)
    requires v < 16
    ensures Digit(c) == v <==> c == "0123456789abcdef"[v] || c == "0123456789ABCDEF"[v]
    ensures Digit(c) <= 16
  {
    MapEntry(v);
    CapitalEntry(v);
  }

  lemma {:induction false} CapitalEntry(j: nat)
    requires j < 16
    ensures "0123456789ABCDEF"[j] as int == if j < 10 then '0' as int + j else 'A' as int + (j - 10)
  {
    var capitals := "0123456789ABCDEF";
    assert capitals[0] == '0' && capitals[1] == '1' && capitals[2] == '2' && capitals[3] == '3' && capitals[4] == '4';
    assert capitals[5] == '5' && capitals[6] == '6' && capitals[7] == '7' && capitals[8] == '8' && capitals[9] == '9';
    assert capitals[10] == 'A' && capitals[11] == 'B' && capitals[12] == 'C' && capitals[13] == 'D';
    assert capitals[14] == 'E' && capitals[15] == 'F';
  }

  /** On a string of hexadecimal digits the result is its value modulo 2^32; any other character, wherever
      it stands, makes it 0. */
  method HexToDec(digits: string) returns (acc: uint32)
    ensures acc == if AllDigits(digits) then Number(digits) % WRAP32 else 0
  {
    acc := 0;
    for i := 0 to |digits|
      invariant AllDigits(digits[..i]) && acc == Number(digits[..i]) % WRAP32
    {
      var addend := 0x10;
      var j := 0;
      while j < 16
        invariant j <= 16 && addend == 0x10 && !(Digit(digits[i]) < j)
      {
        MapIsDigits(digits[i], j);
        if ToLower(digits[i]) == MAP[j] {
          addend := j;
          break;
        }
        j := j + 1;
      }
      assert addend == Digit(digits[i]);
      if addend > 0x0F { return 0; }
      assert digits[..i + 1][..i] == digits[..i];
      Appended(Number(digits[..i]), addend);
      acc := ((acc * 16) % WRAP32 + addend) % WRAP32;
    }
    assert digits[..|digits|] == digits;
  }

  /** One digit more, computed in 32 bits. */
  lemma {:induction false} Appended(n: nat, digit: nat)
    ensures (((n % WRAP32) * 16) % WRAP32 + digit) % WRAP32 == (16 * n + digit) % WRAP32
  {
    var q := n / WRAP32;
    var m := (n % WRAP32) * 16;
    assert 16 * n + digit == (m % WRAP32 + digit) + (16 * q + m / WRAP32) * WRAP32;
  }

  /** n * 16^k. */
  function Shifted(n: nat, k: nat): nat {
    if k == 0 then n else 16 * Shifted(n, k - 1)
  }

  lemma {:induction false} ShiftedTwice(n: nat, k: nat)
    ensures Shifted(n, k + 2) == 256 * Shifted(n, k) && Shifted(n, 0) == n
  {
    assert Shifted(n, k + 2) == 16 * Shifted(n, k + 1);
  }

  lemma {:induction false} NumberOfConcat(a: string, b: string)
    ensures Number(a + b) == Shifted(Number(a), |b|) + Number(b)
  {
    if b == [] {
      assert a + b == a;
    } else {
      var n := |b| - 1;
      assert (a + b)[..|a| + n] == a + b[..n];
      NumberOfConcat(a, b[..n]);
    }
  }

  lemma {:induction false} HighPartVanishes(high: nat, low: nat)
    ensures (256 * (256 * (256 * (256 * high))) + low) % WRAP32 == low % WRAP32
  {
    assert 256 * (256 * (256 * (256 * high))) + low == low + high * WRAP32;
  }

  /** The digit at place `i` from the left counts 16 to the power of the number of digits behind it. */
  lemma {:induction false} NumberPlaces(s: string, i: nat)
    requires i < |s|
    ensures Number(s) == Number(s[..i]) * Pow2(4 * (|s| - i)) + Digit(s[i]) * Pow2(4 * (|s| - i - 1)) + Number(s[i + 1..])
    ensures Number([]) == 0
  {
    var front, c, back := s[..i], [s[i]], s[i + 1..];
    assert s == (front + c) + back;
    NumberOfConcat(front + c, back);
    NumberOfConcat(front, c);
    assert c[..0] == [];
    assert Number(c) == Digit(s[i]) && Shifted(Number(front), 1) == 16 * Number(front);
    var d := Digit(s[i]);
    ShiftedIs(16 * Number(front) + d, |back|);
    assert Pow2(4) == 16;
    Pow2Add(4, 4 * |back|);
    hide Number; hide Digit; hide Pow2; hide Shifted;
    Distributes(Number(front), d, Pow2(4 * |back|));
  }

  lemma {:induction false} Distributes(n: nat, d: nat, p: nat)
    ensures (16 * n + d) * p == n * (16 * p) + d * p
  {
  }

  lemma {:induction false} ShiftedIs(n: nat, k: nat)
    ensures Shifted(n, k) == n * Pow2(4 * k)
  {
    if k > 0 {
      ShiftedIs(n, k - 1);
      assert Pow2(4) == 16;
      Pow2Add(4, 4 * (k - 1));
    }
  }

  /** Only the last eight digits matter. */
  lemma {:induction false} LastEightDigits(s: string)
    requires |s| >= 8
    ensures Number(s) % WRAP32 == Number(s[|s| - 8..]) % WRAP32
  {
    var n := |s| - 8;
    assert s == s[..n] + s[n..];
    NumberOfConcat(s[..n], s[n..]);
    var high, low := Number(s[..n]), Number(s[n..]);
    ShiftedTwice(high, 6); ShiftedTwice(high, 4); ShiftedTwice(high, 2); ShiftedTwice(high, 0);
    HighPartVanishes(high, low);
    hide *;
  }

  /** A number printed in hexadecimal without leading zeros. */
  function Print(n: nat): string {
    if n < 16 then [MAP[n]] else Print(n / 16) + [MAP[n % 16]]
  }

  lemma {:induction false} OneDigit(d: nat)
    requires d < 16
    ensures Digit(MAP[d]) == d
  {
    MapEntry(d);
  }

  /** Parsing inverts printing. */
  lemma {:induction false} PrintRoundTrip(n: nat)
    ensures AllDigits(Print(n)) && Number(Print(n)) == n
  {
    OneDigit(n % 16);
    hide Digit;
    if n < 16 {
      assert Print(n)[..0] == [];
    } else {
      PrintRoundTrip(n / 16);
      assert Print(n)[..|Print(n)| - 1] == Print(n / 16);
    }
  }

  /** Printing uses small letters and no leading zero. */
  lemma {:induction false} PrintIsCanonical(n: nat)
    ensures Print(n) != [] && (forall c :: c in Print(n) ==> c in "0123456789abcdef")
    ensures Print(n)[0] == '0' <==> n == 0
    ensures |Print(n)| == 1 <==> n < 16
  {
    if n < 16 {
      MapEntry(n);
    } else {
      PrintIsCanonical(n / 16);
    }
  }

  /** How an identity is shown. */
  function FormatId(id: uint8): string {
    "0x" + Print(id)
  }

  /** An identity typed as it is shown is read back: the command line skips the "0x". */
  lemma {:induction false} IdentityRoundTrip(id: uint8)
    ensures |FormatId(id)| >= 2 && FormatId(id)[..2] == "0x" && AllDigits(FormatId(id)[2..]) && Number(FormatId(id)[2..]) % WRAP32 == id
  {
    PrintRoundTrip(id);
    assert FormatId(id)[2..] == Print(id);
  }
}
