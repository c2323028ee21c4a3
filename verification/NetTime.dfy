/** Network time: 32-bit seconds and 1/256-second parts, differences that wrap at 2^32 parts,
    and the clock that extrapolates the last synchronisation from a millisecond timer. */
module NetTime {
  import opened MachineTypes

  datatype Time = Time(seconds: uint32, parts: uint8)

  const RESOLUTION := 256

  /** The instant as a count of 1/256 seconds, without any wrap. */
  function Units(t: Time): nat {
    RESOLUTION * t.seconds + t.parts
  }

  function ToUnits32(t: Time): uint32 {
    ((t.seconds * RESOLUTION) % WRAP32 + t.parts) % WRAP32
  }

  function FromUnits32(units: uint32): Time {
    Time(units / RESOLUTION, units % RESOLUTION)
  }

  function Compare(a: Time, b: Time): int {
    if a.seconds < b.seconds then -1
    else if a.seconds > b.seconds then 1
    else if a.parts < b.parts then -1
    else if a.parts > b.parts then 1
    else 0
  }

  function Diff(a: Time, b: Time): Time {
    FromUnits32((ToUnits32(b) - ToUnits32(a)) % WRAP32)
  }

  /** Comparison is the order of the instants. */
  lemma {:induction false} CompareIsOrder(a: Time, b: Time)
    ensures Compare(a, b) < 0 <==> Units(a) < Units(b)
    ensures Compare(a, b) == 0 <==> a == b
    ensures Compare(a, b) > 0 <==> Units(a) > Units(b)
    ensures Compare(a, b) == -Compare(b, a)
  {
  }

  /** Numbers that differ by a multiple of m have one residue. */
  lemma {:induction false} SameResidue(a: int, b: int, k: int, m: int)
    requires m > 0 && a == b + k * m
    ensures a % m == b % m
  {
    var q := a / m - b / m - k;
    assert a % m - b % m == a - m * (a / m) - (b - m * (b / m));
    assert a % m - b % m == -(q * m);
    assert q > 0 ==> q * m >= m;
    assert q < 0 ==> q * m <= -m;
  }

  lemma {:induction false} ToUnits32IsResidue(t: Time)
    ensures ToUnits32(t) == Units(t) % WRAP32
  {
    var whole := t.seconds * RESOLUTION;
    SameResidue(whole % WRAP32 + t.parts, whole + t.parts, -(whole / WRAP32), WRAP32);
  }

  lemma {:induction false} FromUnits32Units(units: uint32)
    ensures Units(FromUnits32(units)) == units
  {
  }

  lemma {:induction false} ResidueOfDifference(x: int, y: int)
    ensures (y % WRAP32 - x % WRAP32) % WRAP32 == (y - x) % WRAP32
  {
    SameResidue(y - x, y % WRAP32 - x % WRAP32, y / WRAP32 - x / WRAP32, WRAP32);
  }

  /** The difference is exact through the overflow of either conversion. */
  lemma {:induction false} DiffIsExact(a: Time, b: Time)
    ensures Units(Diff(a, b)) == (Units(b) - Units(a)) % WRAP32
    ensures 0 <= Units(b) - Units(a) < WRAP32 ==> Units(Diff(a, b)) == Units(b) - Units(a)
  {
    ToUnits32IsResidue(a); ToUnits32IsResidue(b);
    FromUnits32Units((ToUnits32(b) - ToUnits32(a)) % WRAP32);
    ResidueOfDifference(Units(a), Units(b));
  }

  // ----- The clock -----

  /** Milliseconds since the whole second the last synchronisation fell in. */
  function SinceSync(sync: Time, stamp: int, now: int): int {
    (now - stamp) + (sync.parts * 1000) / 256
  }

  /** The time reported `now - stamp` milliseconds after time `sync` was set; a clock that was
      never set reports zero. */
  function Report(sync: Time, stamp: int, now: int): Time
    requires stamp <= now
  {
    if sync.seconds == 0 then Time(0, 0)
    else
      var delta := SinceSync(sync, stamp, now);
      Time((sync.seconds + delta / 1000 % WRAP32) % WRAP32, ((delta % 1000) * 256) / 1000 % 0x100)
  }

  /** The reported units, before the seconds wrap. */
  function Elapsed(sync: Time, stamp: int, now: int): int {
    RESOLUTION * sync.seconds + SinceSync(sync, stamp, now) * 256 / 1000
  }

  /** Whole seconds and the rest, scaled separately, add up to the scaled total. */
  lemma {:induction false} ScaleSplits(delta: int)
    ensures delta * 256 / 1000 == 256 * (delta / 1000) + (delta % 1000) * 256 / 1000
    ensures 0 <= (delta % 1000) * 256 / 1000 < 256
  {
  }

  lemma {:induction false} ReportUnits(sync: Time, stamp: int, now: int)
    requires stamp <= now && sync.seconds != 0
    ensures Units(Report(sync, stamp, now)) % WRAP32 == Elapsed(sync, stamp, now) % WRAP32
    ensures sync.seconds + SinceSync(sync, stamp, now) / 1000 < WRAP32
        ==> Units(Report(sync, stamp, now)) == Elapsed(sync, stamp, now)
  {
    var delta := SinceSync(sync, stamp, now);
    var whole := delta / 1000;
    ScaleSplits(delta);
    var parts := (delta % 1000) * 256 / 1000;
    var seconds: int := sync.seconds + whole;
    assert Elapsed(sync, stamp, now) == 256 * seconds + parts;
    SameResidue(sync.seconds + whole % WRAP32, seconds, -(whole / WRAP32), WRAP32);
    assert Report(sync, stamp, now) == Time(seconds % WRAP32, parts);
    SameResidue(256 * seconds + parts, 256 * (seconds % WRAP32) + parts, 256 * (seconds / WRAP32), WRAP32);
  }

  /** Between synchronisations, while the seconds do not overflow, the reported time is at most
      1.256 units behind the exact one (stated in thousandths of a unit), and never ahead. */
  lemma {:induction false} ClockIsAccurate(sync: Time, stamp: int, now: int)
    requires stamp <= now && sync.seconds != 0
    requires sync.seconds + SinceSync(sync, stamp, now) / 1000 < WRAP32
    ensures var exact := 1000 * Units(sync) + 256 * (now - stamp);
            var reported := 1000 * Units(Report(sync, stamp, now));
            reported <= exact < reported + 1256
  {
    ReportUnits(sync, stamp, now);
  }

  /** The reported time never goes back between synchronisations. */
  lemma {:induction false} ClockIsMonotone(sync: Time, stamp: int, now: int, later: int)
    requires stamp <= now <= later
    requires sync.seconds + SinceSync(sync, stamp, later) / 1000 < WRAP32
    ensures Units(Report(sync, stamp, now)) <= Units(Report(sync, stamp, later))
  {
    if sync.seconds != 0 {
      ReportUnits(sync, stamp, now);
      ReportUnits(sync, stamp, later);
    }
  }

  /** The reported time, exactly: zero if the clock was never set, and otherwise, in 1/256 s and modulo the 2^40
      units that a time can count, what was set in whole seconds and the scaled milliseconds since then. */
  lemma {:induction false} ReportExactly(sync: Time, stamp: int, now: int)
    requires stamp <= now
    ensures var t := Report(sync, stamp, now);
            256 * t.seconds as int + t.parts ==
              if sync.seconds == 0 then 0
              else (256 * sync.seconds as int + ((now - stamp) + sync.parts * 1000 / 256) * 256 / 1000) % 0x100_0000_0000
  {
    if sync.seconds != 0 {
      var delta := SinceSync(sync, stamp, now);
      var seconds: int := sync.seconds + delta / 1000;
      ScaleSplits(delta);
      SameResidue(sync.seconds + delta / 1000 % WRAP32, seconds, -(delta / 1000 / WRAP32), WRAP32);
      assert Report(sync, stamp, now) == Time(seconds % WRAP32, (delta % 1000) * 256 / 1000);
      hide *;
      WrapsAt40Bits(seconds, (delta % 1000) * 256 / 1000);
    }
  }

  lemma {:induction false} WrapsAt40Bits(seconds: nat, parts: nat)
    requires parts < 256
    ensures 256 * (seconds % WRAP32) + parts == (256 * seconds + parts) % 0x100_0000_0000
  {
    QuotientIs(256 * seconds + parts, 0x100_0000_0000, seconds / WRAP32, 256 * (seconds % WRAP32) + parts);
  }

  // ----- Time limits measured with the clock -----

  /** The test a receiver makes: has more than `limit` passed from `start` to `now`? */
  predicate Expired(start: Time, now: Time, limit: Time) {
    Compare(Diff(start, now), limit) > 0
  }

  /** Two readings of a set clock are expired exactly by the units counted between them, modulo 2^32,
      even if the seconds overflow in between. */
  lemma {:induction false} ExpiredExactly(sync: Time, stamp: int, t1: int, t2: int, limit: Time)
    requires stamp <= t1 <= t2 && sync.seconds != 0
    ensures Expired(Report(sync, stamp, t1), Report(sync, stamp, t2), limit)
       <==> (Elapsed(sync, stamp, t2) - Elapsed(sync, stamp, t1)) % WRAP32 > Units(limit)
  {
    var a, b := Report(sync, stamp, t1), Report(sync, stamp, t2);
    var u, v := Elapsed(sync, stamp, t1), Elapsed(sync, stamp, t2);
    DiffIsExact(a, b);
    CompareIsOrder(Diff(a, b), limit);
    ReportUnits(sync, stamp, t1); ReportUnits(sync, stamp, t2);
    hide Report; hide Elapsed; hide Units; hide Diff; hide Compare;
    ResidueOfDifference(u, v);
    ResidueOfDifference(Units(a), Units(b));
  }

  const TEN_SECONDS: Time := Time(10, 0)

  /** Ten seconds have passed from one time to another, exactly if the 1/256 s between them, modulo 2^32, are more than 2560. */
  lemma {:induction false} TenSecondsExactly(start: Time, now: Time)
    ensures Expired(start, now, TEN_SECONDS) <==>
      ((256 * now.seconds as int + now.parts) - (256 * start.seconds as int + start.parts)) % 0x1_0000_0000 > 2560
  {
    DiffIsExact(start, now);
    CompareIsOrder(Diff(start, now), TEN_SECONDS);
    hide Diff; hide Compare;
  }

  /** How many units the clock counts over a stretch of milliseconds. */
  lemma {:induction false} UnitsCounted(sync: Time, stamp: int, t1: int, t2: int)
    requires stamp <= t1 <= t2
    ensures var units := Elapsed(sync, stamp, t2) - Elapsed(sync, stamp, t1);
            256 * (t2 - t1) - 1000 < 1000 * units < 256 * (t2 - t1) + 1000
  {
  }

  lemma {:induction false} UnitsAgainstLimit(units: int, millis: nat)
    requires 256 * millis - 1000 < 1000 * units < 256 * millis + 1000
    ensures millis <= 10000 ==> units % WRAP32 <= 2560
    ensures millis >= 10004 && 256 * millis <= 1000 * (WRAP32 - 1) ==> units % WRAP32 > 2560
  {
    assert 0 <= units < WRAP32 ==> units % WRAP32 == units;
  }

  /** A ten-second limit on the reported time, in milliseconds of the timer: never expired up to
      10000 ms, always from 10004 ms until the unit count itself wraps. */
  lemma {:induction false} TenSecondBound(sync: Time, stamp: int, t1: int, t2: int)
    requires stamp <= t1 <= t2 && sync.seconds != 0
    ensures t2 - t1 <= 10000 ==> !Expired(Report(sync, stamp, t1), Report(sync, stamp, t2), TEN_SECONDS)
    ensures t2 - t1 >= 10004 && 256 * (t2 - t1) <= 1000 * (WRAP32 - 1)
        ==> Expired(Report(sync, stamp, t1), Report(sync, stamp, t2), TEN_SECONDS)
  {
    ExpiredExactly(sync, stamp, t1, t2, TEN_SECONDS);
    UnitsCounted(sync, stamp, t1, t2);
    assert Units(TEN_SECONDS) == 2560;
    hide *;
    UnitsAgainstLimit(Elapsed(sync, stamp, t2) - Elapsed(sync, stamp, t1), t2 - t1);
  }

  /** The bound is tight: 10001 to 10003 ms may or may not expire, depending on the phase. */
  lemma {:induction false} TenSecondBoundIsTight()
    ensures Expired(Report(Time(1, 0), 0, 3), Report(Time(1, 0), 0, 10004), TEN_SECONDS)
    ensures !Expired(Report(Time(1, 0), 0, 0), Report(Time(1, 0), 0, 10003), TEN_SECONDS)
  {
    hide Expired; hide Report;
    ExpiredExactly(Time(1, 0), 0, 3, 10004, TEN_SECONDS);
    ExpiredExactly(Time(1, 0), 0, 0, 10003, TEN_SECONDS);
  }
}
