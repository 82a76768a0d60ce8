/** What the floating-point fields of a packet stand for: the numbers of their bit patterns
    (section 3.4 of IEEE 754-2019), and the receiver's checks as conditions on those numbers. */
module WireValues {
  import opened Prelude
  import opened Wire

  /** A floating-point datum; the two zeros are one number. */
  datatype Number = NaN | Infinite(negative: bool) | Finite(value: real)

  function Pow2(n: nat): (r: real)
    ensures r >= 1.0
  {
    if n == 0 then 1.0 else 2.0 * Pow2(n - 1)
  }

  /** Two to the power of any integer. */
  function Scale(k: int): (r: real)
    ensures r > 0.0
  {
    if k >= 0 then Pow2(k) else 1.0 / Pow2(-k)
  }

  /** A binary interchange format: the bits of its fraction field, the largest value of its
      exponent field, and the bias. */
  datatype Format = Format(precision: nat, top: nat, bias: nat)

  const Binary32 := Format(23, 255, 127)
  const Binary64 := Format(52, 2047, 1023)

  function Part(format: Format, fraction: nat): real { fraction as real / Pow2(format.precision) }

  function Product(a: real, b: real): real { a * b }

  /** The size of a finite number: subnormal under exponent 0, with a hidden bit otherwise. */
  function Magnitude(format: Format, exponent: nat, fraction: nat): real
  {
    if exponent == 0 then Product(Scale(1 - format.bias), Part(format, fraction))
    else Product(Scale(exponent - format.bias), 1.0 + Part(format, fraction))
  }

  function NumberOf(format: Format, negative: bool, exponent: nat, fraction: nat): Number
  {
    if exponent == format.top then (if fraction == 0 then Infinite(negative) else NaN)
    else
      var size := Magnitude(format, exponent, fraction);
      Finite(if negative then -size else size)
  }

  /** The bytes as one number, the first byte highest. */
  function BigEndian(b: bytes): nat
  {
    if b == [] then 0 else BigEndian(b[..|b| - 1]) * 0x100 + b[|b| - 1] as int
  }

  /** One sign bit, eight exponent bits, 23 fraction bits. */
  function Number32(b: bytes): Number
    requires |b| == 4
  {
    var bits := BigEndian(b);
    NumberOf(Binary32, bits / 0x8000_0000 == 1, bits / 0x80_0000 % 0x100, bits % 0x80_0000)
  }

  /** One sign bit, eleven exponent bits, 52 fraction bits. */
  function Number64(b: bytes): Number
    requires |b| == 8
  {
    var bits := BigEndian(b);
    NumberOf(Binary64, bits / 0x8000_0000_0000_0000 == 1, bits / 0x10_0000_0000_0000 % 0x800,
             bits % 0x10_0000_0000_0000)
  }

  // ---- the order of the magnitudes ----

  lemma ScaleNext(k: int)
    ensures Scale(k + 1) == 2.0 * Scale(k)
  {
    if k < 0 {
      assert Pow2(-k) == 2.0 * Pow2(-k - 1);
    }
  }

  lemma {:induction false} ScaleMonotone(j: int, k: int)
    requires j <= k
    ensures Scale(j) <= Scale(k)
    decreases k - j
  {
    if j == k {
    } else {
      ScaleNext(j);
      ScaleMonotone(j + 1, k);
    }
  }

  /** Fractions are below two to the power of the precision. */
  predicate Fits(format: Format, fraction: nat) { fraction as real < Pow2(format.precision) }

  lemma PartBounds(format: Format, fraction: nat)
    requires Fits(format, fraction)
    ensures 0.0 <= Part(format, fraction) < 1.0
  {
    QuotientOrder(0.0, fraction as real, Pow2(format.precision));
    QuotientOrder(fraction as real, Pow2(format.precision), Pow2(format.precision));
  }

  lemma QuotientOrder(a: real, b: real, p: real)
    requires p > 0.0
    ensures a <= b ==> a / p <= b / p
    ensures a < b ==> a / p < b / p
    ensures p / p == 1.0 && 0.0 / p == 0.0
  {
    var x, y := a / p, b / p;
    assert x * p == a && y * p == b;
    assert (y - x) * p == b - a;
    Sign(y - x, p);
  }

  lemma Sign(d: real, p: real)
    requires p > 0.0
    ensures d > 0.0 <==> d * p > 0.0
    ensures d < 0.0 <==> d * p < 0.0
  {
  }

  lemma ProductOrder(s: real, x: real, y: real)
    requires s > 0.0
    ensures x <= y ==> Product(s, x) <= Product(s, y)
    ensures x < y ==> Product(s, x) < Product(s, y)
    ensures Product(s, 0.0) == 0.0 && Product(s, 1.0) == s && Product(s, 2.0) == 2.0 * s
  {
    Sign(y - x, s);
    assert (y - x) * s == s * y - s * x;
  }

  /** A magnitude lies between the power of two of its exponent and the next one. */
  lemma MagnitudeBounds(format: Format, exponent: nat, fraction: nat)
    requires Fits(format, fraction)
    ensures exponent == 0 ==> 0.0 <= Magnitude(format, 0, fraction) < Scale(1 - format.bias)
    ensures exponent > 0 ==>
              Scale(exponent - format.bias) <= Magnitude(format, exponent, fraction) < Scale(exponent + 1 - format.bias)
  {
    PartBounds(format, fraction);
    ScaleNext(exponent - format.bias);
    hide Scale, Fits, Part, Product;
    var part := Part(format, fraction);
    ProductOrder(Scale(1 - format.bias), 0.0, part);
    ProductOrder(Scale(1 - format.bias), part, 1.0);
    ProductOrder(Scale(exponent - format.bias), 1.0, 1.0 + part);
    ProductOrder(Scale(exponent - format.bias), 1.0 + part, 2.0);
  }

  /** The order of the bit patterns. */
  predicate Below(e: nat, f: nat, e': nat, f': nat) { e < e' || (e == e' && f < f') }

  lemma MagnitudeIncreases(format: Format, e: nat, f: nat, e': nat, f': nat)
    requires Fits(format, f) && Fits(format, f') && Below(e, f, e', f')
    ensures Magnitude(format, e, f) < Magnitude(format, e', f')
  {
    QuotientOrder(f as real, f' as real, Pow2(format.precision));
    var x, y := Part(format, f), Part(format, f');
    hide Scale, Product, Fits, Part;
    if e < e' {
      MagnitudeBounds(format, e, f);
      MagnitudeBounds(format, e', f');
      ScaleMonotone((if e == 0 then 1 else e + 1) - format.bias, e' - format.bias);
    } else if e == 0 {
      ProductOrder(Scale(1 - format.bias), x, y);
    } else {
      ProductOrder(Scale(e - format.bias), 1.0 + x, 1.0 + y);
    }
  }

  // ---- binary32 ----

  lemma FractionsFit()
    ensures Pow2(23) == 8388608.0 && Pow2(52) == 4503599627370496.0
  {
    assert Pow2(8) == 256.0;
    PowAdd(8, 8);
    PowAdd(16, 7);
    PowAdd(23, 23);
    PowAdd(46, 6);
  }

  lemma {:induction false} PowAdd(a: nat, b: nat)
    ensures Pow2(a + b) == Pow2(a) * Pow2(b)
  {
    if b == 0 {
    } else {
      PowAdd(a, b - 1);
    }
  }

  lemma MagnitudeZero(format: Format, e: nat, f: nat)
    requires Fits(format, f)
    ensures Magnitude(format, e, f) >= 0.0
    ensures Magnitude(format, e, f) == 0.0 <==> e == 0 && f == 0
  {
    QuotientOrder(0.0, 0.0, Pow2(format.precision));
    assert Fits(format, 0) && Part(format, 0) == 0.0;
    hide Scale, Product, Fits, Part;
    ProductOrder(Scale(1 - format.bias), 0.0, 0.0);
    MagnitudeBounds(format, e, f);
    if e == 0 && f > 0 { MagnitudeIncreases(format, 0, 0, 0, f); }
  }

  /** 30000 is 2^14 * (1 + 6971392 / 2^23). */
  lemma ThirtyThousand()
    ensures Fits(Binary32, 6971392) && Magnitude(Binary32, 141, 6971392) == 30000.0
  {
    FractionsFit();
    assert Pow2(14) == 16384.0;
    assert Scale(14) == 16384.0;
    hide Pow2, Scale;
    assert Part(Binary32, 6971392) == 6971392.0 / 8388608.0;
    assert 16384.0 * (1.0 + 6971392.0 / 8388608.0) == 30000.0;
  }

  lemma BigEndian4(b: bytes)
    requires |b| == 4
    ensures BigEndian(b) == ReadU32(b, 0)
  {
    var three, two, one := b[..3], b[..2], b[..1];
    assert three[..2] == two && two[..1] == one && one[..0] == [];
    assert BigEndian(one) == b[0] as int;
    assert BigEndian(two) == b[0] as int * 0x100 + b[1] as int;
    assert BigEndian(three) == BigEndian(two) * 0x100 + b[2] as int;
  }

  lemma ZeroBits(b: bytes)
    requires |b| == 4
    ensures ZeroF32(b) <==> ReadU32(b, 0) == 0 || ReadU32(b, 0) == 0x8000_0000
  {
  }

  /** The bits of a number below infinity are in the order of exponent and fraction. */
  lemma BitsOrder(n: nat)
    requires n < 0x1_0000_0000
    ensures var e, f := n / 0x80_0000 % 0x100, n % 0x80_0000;
            && f < 0x80_0000
            && (n <= 0x46EA_6000 <==> n < 0x8000_0000 && !Below(141, 6971392, e, f))
            && (n == 0 || n == 0x8000_0000 <==> e == 0 && f == 0)
            && (n >= 0x8000_0000 <==> n / 0x8000_0000 == 1)
  {
  }

  /** Against 30000, the order of the bits is the order of the magnitudes. */
  lemma AgainstLimit(e: nat, f: nat)
    requires f < 0x80_0000
    ensures Magnitude(Binary32, e, f) <= 30000.0 <==> !Below(141, 6971392, e, f)
    ensures Magnitude(Binary32, e, f) >= 0.0 && (Magnitude(Binary32, e, f) == 0.0 <==> e == 0 && f == 0)
  {
    FractionsFit();
    ThirtyThousand();
    assert Fits(Binary32, f);
    hide Magnitude, Fits;
    MagnitudeZero(Binary32, e, f);
    if Below(e, f, 141, 6971392) { MagnitudeIncreases(Binary32, e, f, 141, 6971392); }
    if Below(141, 6971392, e, f) { MagnitudeIncreases(Binary32, 141, 6971392, e, f); }
  }

  /** The test on the bits of a duration says that it is a number from 0 to 30,000. */
  lemma DurationMeaning(b: bytes)
    requires |b| == 4
    ensures DurationF32(b) <==> Number32(b).Finite? && 0.0 <= Number32(b).value <= 30000.0
  {
    BigEndian4(b);
    ZeroBits(b);
    var n := ReadU32(b, 0);
    hide Magnitude, ReadU32, ZeroF32, BigEndian, Below;
    BitsOrder(n);
    AgainstLimit(n / 0x80_0000 % 0x100, n % 0x80_0000);
    assert Below(141, 6971392, 255, n % 0x80_0000) by { Infinity(n % 0x80_0000); }
  }

  lemma Infinity(f: nat)
    ensures Below(141, 6971392, 255, f)
  {
  }

  // ---- binary64 ----

  lemma BigEndian8(b: bytes)
    requires |b| == 8
    ensures BigEndian(b) == BigEndian(b[..4]) * 0x1_0000_0000 + BigEndian(b[4..])
  {
    var l, r := b[..4], b[4..];
    assert b[..7][..6][..5][..4] == l;
    assert b[..7][..6][..5] == b[..5] && b[..7][..6] == b[..6];
    assert r[..3][..2] == r[..2] && r[..2][..1] == r[..1] && r[..1][..0] == [];
    assert BigEndian(r[..1]) == b[4] as int;
    assert BigEndian(r[..2]) == BigEndian(r[..1]) * 0x100 + b[5] as int;
    assert BigEndian(r[..3]) == BigEndian(r[..2]) * 0x100 + b[6] as int;
    assert BigEndian(b[..5]) == BigEndian(l) * 0x100 + b[4] as int;
    assert BigEndian(b[..6]) == BigEndian(b[..5]) * 0x100 + b[5] as int;
    assert BigEndian(b[..7]) == BigEndian(b[..6]) * 0x100 + b[6] as int;
  }

  /** Exponent and fraction in terms of the first two bytes. */
  lemma Fields64(b0: byte, b1: byte, rest: nat)
    requires rest < 0x1_0000_0000_0000
    ensures var n := (b0 as int * 0x100 + b1 as int) * 0x1_0000_0000_0000 + rest;
            && (n / 0x8000_0000_0000_0000 == 1 <==> b0 >= 0x80)
            && n / 0x10_0000_0000_0000 % 0x800 == b0 as int % 0x80 * 0x10 + b1 as int / 0x10
            && n % 0x10_0000_0000_0000 == b1 as int % 0x10 * 0x1_0000_0000_0000 + rest
  {
    var n := (b0 as int * 0x100 + b1 as int) * 0x1_0000_0000_0000 + rest;
    assert n == (b0 as int * 0x10 + b1 as int / 0x10) * 0x10_0000_0000_0000
                + (b1 as int % 0x10 * 0x1_0000_0000_0000 + rest);
    assert n / 0x10_0000_0000_0000 == b0 as int * 0x10 + b1 as int / 0x10;
  }

  /** What follows the first two bytes. */
  function Rest64(b: bytes): nat
    requires |b| == 8
  {
    ReadU16(b, 2) * 0x1_0000_0000 + ReadU32(b, 4)
  }

  lemma Rest64Bits(b: bytes)
    requires |b| == 8
    ensures Rest64(b) < 0x1_0000_0000_0000
    ensures BigEndian(b) == (b[0] as int * 0x100 + b[1] as int) * 0x1_0000_0000_0000 + Rest64(b)
  {
    BigEndian8(b);
    BigEndian4(b[..4]);
    BigEndian4(b[4..]);
    assert ReadU32(b[..4], 0) == (b[0] as int * 0x100 + b[1] as int) * 0x1_0000 + ReadU16(b, 2);
    assert ReadU32(b[4..], 0) == ReadU32(b, 4);
    hide BigEndian, ReadU32, ReadU16;
  }

  lemma Rest64Zero(b: bytes)
    requires |b| == 8
    ensures b == [0, 0, 0, 0, 0, 0, 0, 0] <==> b[0] == 0 && b[1] == 0 && Rest64(b) == 0
  {
  }

  /** The test on the bits of a time says that it is a number above 0. */
  lemma TimeMeaning(b: bytes)
    requires |b| == 8
    ensures PositiveF64(b) <==> Number64(b).Finite? && Number64(b).value > 0.0
  {
    Rest64Bits(b);
    Rest64Zero(b);
    Fields64(b[0], b[1], Rest64(b));
    FractionsFit();
    hide Magnitude, BigEndian, Rest64, Pow2;
    var bits := BigEndian(b);
    var e, f := bits / 0x10_0000_0000_0000 % 0x800, bits % 0x10_0000_0000_0000;
    FieldsZero(b[0], b[1], Rest64(b));
    assert Fits(Binary64, f);
    hide Fits;
    MagnitudeZero(Binary64, e, f);
    assert Number64(b) == NumberOf(Binary64, b[0] >= 0x80, e, f);
  }

  lemma FieldsZero(b0: byte, b1: byte, rest: nat)
    ensures b0 as int % 0x80 * 0x10 + b1 as int / 0x10 == 0 && b1 as int % 0x10 * 0x1_0000_0000_0000 + rest == 0
            <==> b0 % 0x80 == 0 && b1 == 0 && rest == 0
  {
  }

  // ---- equality ----

  lemma {:induction false} BigEndianInjective(a: bytes, b: bytes)
    requires |a| == |b| && BigEndian(a) == BigEndian(b)
    ensures a == b
  {
    if a == [] {
    } else {
      var n := |a| - 1;
      BigEndianInjective(a[..n], b[..n]);
      assert a == a[..n] + [a[n]] && b == b[..n] + [b[n]];
    }
  }

  lemma SameMagnitude(format: Format, e: nat, f: nat, e': nat, f': nat)
    requires Fits(format, f) && Fits(format, f') && Magnitude(format, e, f) == Magnitude(format, e', f')
    ensures e == e' && f == f'
  {
    hide Magnitude, Fits;
    if Below(e, f, e', f') { MagnitudeIncreases(format, e, f, e', f'); }
    if Below(e', f', e, f) { MagnitudeIncreases(format, e', f', e, f); }
  }

  lemma TimeValue(b: bytes)
    requires PositiveF64(b)
    ensures var n := BigEndian(b);
            && Number64(b) == Finite(Magnitude(Binary64, n / 0x10_0000_0000_0000 % 0x800, n % 0x10_0000_0000_0000))
            && n < 0x8000_0000_0000_0000
  {
    TimeMeaning(b);
    Rest64Bits(b);
    hide Magnitude, BigEndian, Rest64, Pow2;
  }

  lemma SameFields64(m: nat, n: nat)
    requires m < 0x8000_0000_0000_0000 && n < 0x8000_0000_0000_0000
    requires m / 0x10_0000_0000_0000 % 0x800 == n / 0x10_0000_0000_0000 % 0x800
    requires m % 0x10_0000_0000_0000 == n % 0x10_0000_0000_0000
    ensures m == n
  {
  }

  /** Times that pass the test are the same number only if their bits are the same. */
  lemma SameTimeMeaning(a: bytes, b: bytes)
    requires PositiveF64(a) && PositiveF64(b)
    ensures a == b <==> Number64(a) == Number64(b)
  {
    TimeValue(a);
    TimeValue(b);
    FractionsFit();
    var m, n := BigEndian(a), BigEndian(b);
    assert Fits(Binary64, m % 0x10_0000_0000_0000) && Fits(Binary64, n % 0x10_0000_0000_0000);
    hide Magnitude, BigEndian, Number64, Fits, Pow2;
    if Number64(a) == Number64(b) {
      SameMagnitude(Binary64, m / 0x10_0000_0000_0000 % 0x800, m % 0x10_0000_0000_0000,
                    n / 0x10_0000_0000_0000 % 0x800, n % 0x10_0000_0000_0000);
      SameFields64(m, n);
      BigEndianInjective(a, b);
    }
  }

  lemma DurationValue(b: bytes)
    requires DurationF32(b)
    ensures var n := ReadU32(b, 0);
            && Number32(b) == Finite(Magnitude(Binary32, n / 0x80_0000 % 0x100, n % 0x80_0000))
            && (n < 0x8000_0000 || n == 0x8000_0000)
  {
    DurationMeaning(b);
    BigEndian4(b);
    ZeroBits(b);
    var n := ReadU32(b, 0);
    BitsOrder(n);
    AgainstLimit(n / 0x80_0000 % 0x100, n % 0x80_0000);
    hide Magnitude, BigEndian, ReadU32, ZeroF32, Below;
  }

  lemma SameFields(m: nat, n: nat)
    requires m <= 0x8000_0000 && n <= 0x8000_0000
    ensures m / 0x80_0000 % 0x100 == n / 0x80_0000 % 0x100 && m % 0x80_0000 == n % 0x80_0000
            <==> m == n || (m % 0x8000_0000 == 0 && n % 0x8000_0000 == 0)
  {
  }

  lemma SameDurationBits(a: bytes, b: bytes)
    requires |a| == |b| == 4
    ensures SameDuration(a, b) <==>
            var m, n := ReadU32(a, 0), ReadU32(b, 0);
            m == n || (m % 0x8000_0000 == 0 && n % 0x8000_0000 == 0)
  {
    ZeroBits(a);
    ZeroBits(b);
    BigEndian4(a);
    BigEndian4(b);
    hide BigEndian, ZeroF32;
    if ReadU32(a, 0) == ReadU32(b, 0) { BigEndianInjective(a, b); }
  }

  /** Durations that pass the test are the same number only if their bits are, or both are zero. */
  lemma SameDurationMeaning(a: bytes, b: bytes)
    requires DurationF32(a) && DurationF32(b)
    ensures SameDuration(a, b) <==> Number32(a) == Number32(b)
  {
    DurationValue(a);
    DurationValue(b);
    SameDurationBits(a, b);
    var m, n := ReadU32(a, 0), ReadU32(b, 0);
    FractionsFit();
    assert Fits(Binary32, m % 0x80_0000) && Fits(Binary32, n % 0x80_0000);
    hide Magnitude, ReadU32, ZeroF32, DurationF32, SameDuration, Number32, Fits, Pow2;
    SameFields(m, n);
    if Number32(a) == Number32(b) {
      SameMagnitude(Binary32, m / 0x80_0000 % 0x100, m % 0x80_0000, n / 0x80_0000 % 0x100, n % 0x80_0000);
    }
  }

  // ---- the timing of a packet ----

  /** Two timings that passed the checks agree exactly if they have the same fields with the same
      numbers in them. */
  lemma SameTimingExactly(a: Timing, b: Timing)
    requires Acceptable(a) && Acceptable(b)
    ensures SameTiming(a, b) <==>
            match (a, b)
            case (Untimed, Untimed) => true
            case (TimedV1(c, d), TimedV1(c', d')) => Number64(c) == Number64(c') && Number32(d) == Number32(d')
            case (Synchronised(c, d, s), Synchronised(c', d', s')) =>
              Number64(c) == Number64(c') && Number32(d) == Number32(d') && Number64(s) == Number64(s')
            case _ => false
  {
    hide Number32, Number64, PositiveF64, SameDuration;
    match (a, b) {
      case (TimedV1(c, d), TimedV1(c', d')) =>
        SameTimeMeaning(c, c');
        SameDurationMeaning(d, d');
      case (Synchronised(c, d, s), Synchronised(c', d', s')) =>
        SameTimeMeaning(c, c');
        SameDurationMeaning(d, d');
        SameTimeMeaning(s, s');
      case _ =>
    }
  }

  predicate Time(b: bytes) { |b| == 8 && Number64(b).Finite? && Number64(b).value > 0.0 }

  predicate Duration(b: bytes) { |b| == 4 && Number32(b).Finite? && 0.0 <= Number32(b).value <= 30000.0 }

  /** What the receiver reads of the timing: nothing behind the tags without timing; behind the
      others the two or three fields at their places, exactly if bytes follow them, the times
      are positive and the duration is at most 30 seconds. */
  lemma TimingExactly(p: bytes)
    requires |p| > 16
    ensures var tag := p[..4];
            ReadTiming(p) ==
            if tag == TIMED_H264_TAG || tag == TIMED_H265_TAG then
              if |p| > 28 && Time(p[16..24]) && Duration(p[24..28]) then Some(TimedV1(p[16..24], p[24..28])) else None
            else if tag == SYNC_H264_TAG || tag == SYNC_H265_TAG then
              if |p| > 36 && Time(p[16..24]) && Duration(p[24..28]) && Time(p[28..36])
              then Some(Synchronised(p[16..24], p[24..28], p[28..36])) else None
            else Some(Untimed)
  {
    hide Number32, Number64, PositiveF64, DurationF32;
    if |p| > 28 {
      TimeMeaning(p[16..24]);
      DurationMeaning(p[24..28]);
    }
    if |p| > 36 { TimeMeaning(p[28..36]); }
  }

  /** Two headers agree exactly if all their fields do, times and durations as numbers. */
  lemma SameHeaderExactly(a: Header, b: Header)
    requires Acceptable(a.timing) && Acceptable(b.timing)
    ensures SameHeader(a, b) <==>
            && a.total == b.total && a.width == b.width && a.height == b.height && a.codec == b.codec
            && SameTiming(a.timing, b.timing)
  {
  }

  // ---- whole packets ----

  function Ascii(text: string): bytes
  {
    seq(|text|, i requires 0 <= i < |text| => text[i] as int % 0x80)
  }

  predicate Tagged(p: bytes, text: string) { |p| >= 4 && p[..4] == Ascii(text) }

  predicate TaggedH264(p: bytes) { Tagged(p, "H264") || Tagged(p, "VIDC") || Tagged(p, "H24T") || Tagged(p, "H24S") }

  predicate TaggedH265(p: bytes) { Tagged(p, "H265") || Tagged(p, "HEVC") || Tagged(p, "H26T") || Tagged(p, "H26S") }

  /** A big-endian number of two bytes. */
  function Field(p: bytes, at: nat): int
    requires at + 2 <= |p|
  {
    p[at] as int * 256 + p[at + 1] as int
  }

  /** The fixed fields of a chunk that is accepted: one of at most 6214 chunks of a picture no
      larger than the codec allows. */
  predicate InLimits(p: bytes, hevc: bool)
    requires |p| > 16
  {
    && Field(p, 8) < Field(p, 10) <= 6214
    && 0 < Field(p, 12) <= (if hevc then 3840 else 1920)
    && 0 < Field(p, 14) <= (if hevc then 2160 else 1088)
  }

  /** How many bytes of header the tag announces. */
  function HeaderOf(p: bytes): nat
  {
    if Tagged(p, "H24S") || Tagged(p, "H26S") then 36 else if Tagged(p, "H24T") || Tagged(p, "H26T") then 28 else 16
  }

  /** The chunk is made of the fields of the packet and of what follows its header. */
  predicate Carries(p: bytes, c: Chunk)
    requires |p| > 16
  {
    && c.number == Field(p, 4) * 65536 + Field(p, 6) && c.index == Field(p, 8)
    && c.header.total == Field(p, 10) && c.header.width == Field(p, 12) && c.header.height == Field(p, 14)
    && c.header.codec == (if TaggedH265(p) then Hevc else H264)
    && HeaderOf(p) <= |p| && c.payload == p[HeaderOf(p)..]
  }

  lemma FieldsAre(p: bytes)
    requires |p| > 16
    ensures ReadU32(p, 4) == Field(p, 4) * 65536 + Field(p, 6)
    ensures ReadU16(p, 8) == Field(p, 8) && ReadU16(p, 10) == Field(p, 10)
    ensures ReadU16(p, 12) == Field(p, 12) && ReadU16(p, 14) == Field(p, 14)
  {
  }

  lemma HeaderAnnounced(p: bytes)
    requires |p| > 16
    ensures ReadTiming(p).Some? ==> HeaderBytes(ReadTiming(p).value) == HeaderOf(p) < |p|
  {
    TagsAre();
    hide PositiveF64, DurationF32, Ascii;
  }

  lemma ChunkRead(p: bytes)
    requires |p| > 16 && (TaggedH264(p) || TaggedH265(p))
    ensures var r := ReadChunk(p, if TaggedH265(p) then Hevc else H264);
            && (r.Some? <==> InLimits(p, TaggedH265(p)) && ReadTiming(p).Some? && |p| <= HeaderOf(p) + 8388608)
            && (r.Some? ==> Carries(p, r.value) && ReadTiming(p) == Some(r.value.header.timing))
  {
    FieldsAre(p);
    HeaderAnnounced(p);
    hide ReadTiming, ReadU16, ReadU32, Field, Tagged, HeaderOf;
  }

  lemma CodecTagged(p: bytes)
    requires |p| >= 4
    ensures CodecOf(p[..4]) == if TaggedH265(p) then Some(Hevc) else if TaggedH264(p) then Some(H264) else None
    ensures Tagged(p, "STOP") <==> p[..4] == STOP_TAG
  {
    TagsAre();
    hide Ascii;
  }

  /** What a packet is to the receiver, in bytes and numbers: a stop marker by its tag alone; not
      recognised if it is no longer than 16 bytes or has none of the eight tags; and otherwise
      one with a number, whose body is accepted exactly if its fields are in their limits, its
      timing is accepted, and at most 8 MiB follow the header. */
  lemma ParsedExactly(p: bytes)
    ensures Tagged(p, "STOP") ==> Parse(p) == StopMarker
    ensures !Tagged(p, "STOP") && (|p| <= 16 || !(TaggedH264(p) || TaggedH265(p))) ==> Parse(p) == Unrecognised
    ensures !Tagged(p, "STOP") && |p| > 16 && (TaggedH264(p) || TaggedH265(p)) ==>
              var r := Parse(p);
              && r.Media? && r.number == Field(p, 4) * 65536 + Field(p, 6)
              && (r.body.Some? <==>
                    InLimits(p, TaggedH265(p)) && ReadTiming(p).Some? && |p| <= HeaderOf(p) + 8388608)
              && (r.body.Some? ==> Carries(p, r.body.value) && ReadTiming(p) == Some(r.body.value.header.timing))
  {
    if |p| >= 4 { CodecTagged(p); }
    if |p| > 16 {
      FieldsAre(p);
      hide ReadChunk, ReadU32, ReadTiming, CodecOf, Tagged, InLimits, Carries, HeaderOf, Field;
      if TaggedH264(p) || TaggedH265(p) { ChunkRead(p); }
    }
  }

  lemma TagsAre()
    ensures Ascii("H264") == H264_TAG && Ascii("H265") == H265_TAG
    ensures Ascii("VIDC") == LEGACY_H264_TAG && Ascii("HEVC") == LEGACY_H265_TAG
    ensures Ascii("H24T") == TIMED_H264_TAG && Ascii("H26T") == TIMED_H265_TAG
    ensures Ascii("H24S") == SYNC_H264_TAG && Ascii("H26S") == SYNC_H265_TAG && Ascii("STOP") == STOP_TAG
  {
  }

  /** The sender's four tags. */
  lemma SentTag(u: Unit)
    ensures Tagged(PacketOf(u), match (u.codec, u.timing.Synchronised?)
                                case (H264, false) => "H264"
                                case (Hevc, false) => "H265"
                                case (H264, true) => "H24S"
                                case (Hevc, true) => "H26S")
  {
    TagsAre();
    hide Ascii, TimingBytes, U16, U32;
    var tag, p := UnitTag(u), PacketOf(u);
    assert FixedFields(tag, ChunkOf(u))[..4] == tag;
    assert p[..4] == FixedFields(tag, ChunkOf(u))[..4];
  }
}
