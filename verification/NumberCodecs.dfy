/** rfc5444.c: time codes (section 5 of RFC 5497), metric codes (section 6.2 of RFC 7181), sequence numbers. */
module NumberCodecs {
  import opened Basics
  import opened Bytes

  type U64 = x: int | 0 <= x < 0x1_0000_0000_0000_0000
  type U32 = x: int | 0 <= x < 0x1_0000_0000

  const TIME_MAX := 0xdac00000
  const TIME_MIN := 1

  function Pow2(n: nat): (r: nat)
    ensures r > 0
  {
    if n == 0 then 1 else 2 * Pow2(n - 1)
  }

  lemma {:induction false} Pow2Add(m: nat, n: nat)
    ensures Pow2(m + n) == Pow2(m) * Pow2(n)
  {
    if m > 0 {
      Pow2Add(m - 1, n);
      var p, q, r := Pow2(m - 1), Pow2(n), Pow2(m + n - 1);
      assert Pow2(m + n) == 2 * r;
      assert 2 * (p * q) == (2 * p) * q;
    }
  }

  lemma Pow2Ten()
    ensures Pow2(10) == 1024
  {
    assert Pow2(5) == 32;
    Pow2Add(5, 5);
  }

  // ---------- Time ----------

  /** x >> n */
  function ShiftRight(x: nat, n: nat): (r: nat) {
    hide Pow2;
    x / Pow2(n)
  }

  /** x << n, without a limit of bits */
  function ShiftLeft(x: nat, n: nat): (r: nat) {
    x * Pow2(n)
  }

  /** rfc5497_timetlv_decode; no shift leaves 64 bits. */
  function TimeDecode(code: Byte): (t: nat) {
    if code == 0 then 0 else if code == 255 then 0xffff_ffff_ffff_ffff else
    var a, b := code % 8, code / 8;
    if b <= 10 then ShiftRight(1000 + 125 * a, 10 - b) else ShiftLeft(1000 + 125 * a, b - 10)
  }

  /** code is the least code that decodes to t or more. */
  predicate IsTimeCode(t: nat, code: Byte) {
    t <= TimeDecode(code) && (code > 0 ==> TimeDecode(code - 1) < t)
  }

  /** 1024 times the time of a code, before it is rounded down. */
  function Scaled(code: nat): (r: nat) {
    (1000 + 125 * (code % 8)) * Pow2(code / 8)
  }

  /** The steps between codes: they double with every eighth. */
  lemma ScaledNext(code: nat)
    ensures Scaled(code + 1) == Scaled(code) + 125 * Pow2(code / 8)
  {
    var p := Pow2(code / 8);
    if code % 8 == 7 {
      assert (code + 1) / 8 == code / 8 + 1 && (code + 1) % 8 == 0;
      assert Scaled(code + 1) == 1000 * (2 * p);
    } else {
      assert (code + 1) / 8 == code / 8 && (code + 1) % 8 == code % 8 + 1;
      assert Scaled(code + 1) == Scaled(code) + 125 * p;
    }
  }

  lemma {:induction false} ScaledMonotone(c: nat, d: nat)
    requires c <= d
    ensures Scaled(c) <= Scaled(d) && (c < d ==> Scaled(c) < Scaled(d))
    decreases d - c
  {
    if c < d {
      ScaledNext(c);
      ScaledMonotone(c + 1, d);
    }
  }

  lemma DivFloor(t: nat, v: nat, q: nat)
    requires q > 0
    ensures t <= v / q <==> t * q <= v
  {
    var f := v / q;
    assert v == f * q + v % q;
    assert t <= f ==> t * q <= f * q;
    assert t >= f + 1 ==> t * q >= (f + 1) * q == f * q + q;
  }

  lemma MulCancel(a: nat, b: nat, p: nat)
    requires p > 0
    ensures a <= b <==> a * p <= b * p
  {
    assert a <= b ==> a * p <= b * p;
    assert a >= b + 1 ==> a * p >= (b + 1) * p == b * p + p;
  }

  lemma LowFloor(t: nat, v: nat, q: nat, p: nat)
    requires q > 0 && p > 0 && q * p == 1024
    ensures t <= v / q <==> 1024 * t <= v * p
  {
    DivFloor(t, v, q);
    MulCancel(t * q, v, p);
    assert (t * q) * p == t * (q * p);
  }

  lemma HighFloor(t: nat, v: nat, p: nat)
    ensures t <= v * p <==> 1024 * t <= v * (1024 * p)
  {
    assert v * (1024 * p) == 1024 * (v * p);
  }

  lemma ScaledIs(a: nat, b: nat)
    requires a < 8
    ensures Scaled(a + 8 * b) == (1000 + 125 * a) * Pow2(b)
  {
    assert (a + 8 * b) / 8 == b && (a + 8 * b) % 8 == a;
  }

  /** Rounding down does not matter for whole milliseconds. */
  lemma TimeFloor(t: nat, code: Byte)
    requires code < 255
    ensures t <= TimeDecode(code) <==> 1024 * t <= Scaled(code)
  {
    hide Pow2;
    Pow2Ten();
    Pow2Zero();
    var v, b := 1000 + 125 * (code % 8), code / 8;
    if code > 0 && b <= 10 {
      Pow2Add(10 - b, b);
      LowFloor(t, v, Pow2(10 - b), Pow2(b));
    } else if code > 0 {
      Pow2Add(10, b - 10);
      HighFloor(t, v, Pow2(b - 10));
    }
  }

  lemma Pow2Zero()
    ensures Pow2(0) == 1
  {
  }

  lemma IsTimeFromScaled(t: nat, e: nat)
    requires 0 < e < 255 && Scaled(e - 1) < 1024 * t <= Scaled(e)
    ensures IsTimeCode(t, e)
  {
    hide Scaled, TimeDecode;
    TimeFloor(t, e);
    TimeFloor(t, e - 1);
  }

  lemma TimeMaxIs()
    ensures TimeDecode(254) == TIME_MAX
  {
    assert Pow2(7) == 128;
    Pow2Add(7, 7);
    Pow2Add(14, 7);
    assert Pow2(21) == 128 * 128 * 128;
  }

  lemma TimeMonotone(c: Byte, d: Byte)
    requires c <= d
    ensures TimeDecode(c) <= TimeDecode(d)
  {
    TimeMaxIs();
    if d < 255 {
      ScaledMonotone(c, d);
      TimeFloor(TimeDecode(c), c);
      TimeFloor(TimeDecode(c), d);
    } else if c < 255 {
      ScaledMonotone(c, 254);
      TimeFloor(TimeDecode(c), c);
      TimeFloor(TimeDecode(c), 254);
    }
  }

  /** Encoding and decoding are a Galois connection between times and codes. */
  lemma TimeGalois(t: nat, code: Byte, c: Byte)
    requires IsTimeCode(t, code)
    ensures code <= c <==> t <= TimeDecode(c)
  {
    if code <= c {
      TimeMonotone(code, c);
    } else {
      TimeMonotone(c, code - 1);
    }
  }

  /** The codes that decode to the same millisecond as the code before. */
  predicate SameAsBefore(c: Byte) {
    c in {2, 3, 4, 5, 6, 7, 8, 10, 11, 12, 14, 15, 16, 18, 20, 22, 24}
  }

  lemma StableIs(c: Byte, code: Byte)
    requires IsTimeCode(TimeDecode(c), code)
    ensures code == c <==> c == 0 || TimeDecode(c - 1) < TimeDecode(c)
  {
    TimeGalois(TimeDecode(c), code, c);
    if c > 0 {
      TimeGalois(TimeDecode(c), code, c - 1);
    }
  }

  lemma SmallPowers()
    ensures Pow2(1) == 2 && Pow2(2) == 4 && Pow2(3) == 8 && Pow2(4) == 16 && Pow2(5) == 32
    ensures Pow2(6) == 64 && Pow2(7) == 128 && Pow2(8) == 256 && Pow2(9) == 512 && Pow2(10) == 1024
  {
  }

  lemma OctaveIs(c: Byte)
    requires 0 < c < 88
    ensures TimeDecode(c) == (1000 + 125 * (c % 8)) / Pow2(10 - c / 8)
  {
    hide Pow2;
  }

  /** The times of the codes up to 32. */
  lemma SmallTimes(c: Byte)
    requires c <= 32
    ensures TimeDecode(c) == if c == 0 then 0 else if c < 9 then 1 else if c < 13 then 2 else if c < 17 then 3
      else if c < 25 then 4 + (c - 17) / 2 else c - 17
  {
    SmallPowers();
    hide Pow2;
    if c > 0 {
      OctaveIs(c);
      assert c / 8 == 0 || c / 8 == 1 || c / 8 == 2 || c / 8 == 3 || c == 32;
    }
  }

  lemma DivStrict(v: nat, w: nat, q: nat)
    requires q > 0 && v + q <= w
    ensures v / q < w / q
  {
    DivFloor(v / q + 1, w, q);
    assert (v / q + 1) * q == v / q * q + q <= v + q;
  }

  /** From code 33 on a step is at least a millisecond. */
  lemma LargeTimes(c: Byte)
    requires 32 < c
    ensures TimeDecode(c - 1) < TimeDecode(c)
  {
    TimeMaxIs();
    if c == 255 {
    } else if c >= 80 {
      TimeFloor(TimeDecode(c), c - 1);
      ScaledNext(c - 1);
      Exact(c);
    } else {
      SmallStep(c);
    }
  }

  lemma SmallStep(c: Byte)
    requires 32 < c < 80
    ensures TimeDecode(c - 1) < TimeDecode(c)
  {
    SmallPowers();
    hide Pow2, TimeDecode;
    var a, b := c % 8, c / 8;
    var q := Pow2(10 - b);
    OctaveIs(c);
    OctaveIs(c - 1);
    if a > 0 {
      assert (c - 1) / 8 == b && (c - 1) % 8 == a - 1;
      DivStrict(1000 + 125 * (a - 1), 1000 + 125 * a, q);
    } else {
      assert (c - 1) / 8 == b - 1 && (c - 1) % 8 == 7;
      assert Pow2(11 - b) == 2 * q && 1000 / q == 2000 / (2 * q);
      DivStrict(1875, 2000, 2 * q);
    }
  }

  /** Exactly these codes do not survive decoding and encoding: 2 to 8, 10, 11, 12, 14, 15, 16, 18, 20, 22 and 24. */
  lemma TimeStable(c: Byte, code: Byte)
    requires IsTimeCode(TimeDecode(c), code)
    ensures code == c <==> !SameAsBefore(c)
  {
    StableIs(c, code);
    if c <= 32 {
      SmallTimes(c);
      SmallTimes(if c > 0 then c - 1 else 0);
    } else {
      LargeTimes(c);
    }
  }

  lemma Exact(c: Byte)
    requires 80 <= c < 255
    ensures 1024 * TimeDecode(c) == Scaled(c)
  {
    hide Pow2;
    Pow2Ten();
    Pow2Zero();
    Pow2Add(10, c / 8 - 10);
    var v, p := 1000 + 125 * (c % 8), Pow2(c / 8 - 10);
    assert v * (1024 * p) == 1024 * (v * p);
    assert v / 1 == v;
  }

  /** Code 2 means the same millisecond as code 1, and does not survive. */
  lemma TimeUnstable()
    ensures TimeDecode(2) == 1 && IsTimeCode(1, 1)
  {
    Pow2Ten();
  }

  /** rfc5497_timetlv_encode: the least code that is not below t, with 0 and 255 as the end points. */
  method TimeEncode(t: U64) returns (code: Byte)
    ensures IsTimeCode(t, code)
  {
    TimeMaxIs();
    if t < TIME_MIN {
      return 0;
    }
    if t > TIME_MAX {
      return 255;
    }
    if t >= 1000 {
      code := EncodeHigh(t);
    } else {
      code := EncodeLow(t);
    }
  }

  /** The part of rfc5497_timetlv_encode for times of a second and more. */
  method EncodeHigh(t: nat) returns (code: Byte)
    requires 1000 <= t <= TIME_MAX
    ensures IsTimeCode(t, code)
  {
    hide Pow2, IsTimeCode;
    TimeMaxParts();
    Pow2Zero();
    var decoded, b := t, 10;
    ghost var k: nat, p: nat, half: nat := 0, 1, 0;
    while decoded > 1875
      invariant b == 10 + k && k <= 21 && p == Pow2(k)
      invariant (decoded - 1) * p < t <= decoded * p
      invariant decoded <= 1750 * Pow2(21 - k)
      invariant if k == 0 then decoded == t else p == 2 * half && 1875 * half < t && 938 <= decoded
      decreases decoded
    {
      Halved(t, decoded, p);
      Doubled(k);
      half := p;
      b := b + 1;
      k, p := k + 1, 2 * p;
      decoded := (decoded + 1) / 2;
    }
    var a := (decoded - 1000 + 124) / 125;
    HighCode(t, decoded, k, p, half, a);
    code := a + 8 * b;
  }

  lemma TimeMaxParts()
    ensures 1750 * Pow2(21) == TIME_MAX
  {
    TimeMaxIs();
  }

  lemma Doubled(k: nat)
    ensures Pow2(k + 1) == 2 * Pow2(k)
    ensures k < 21 ==> Pow2(21 - k) == 2 * Pow2(20 - k)
    ensures k >= 21 ==> Pow2(0) == 1
  {
  }

  /** The part for times below a second. */
  method EncodeLow(t: nat) returns (code: Byte)
    requires 1 <= t < 1000
    ensures IsTimeCode(t, code)
  {
    hide Pow2, IsTimeCode;
    Pow2Zero();
    Pow2Ten();
    var decoded: int, b: int := t, 10;
    ghost var k: nat := 0;
    while decoded < 1000
      invariant b == 10 - k && k <= 10 && decoded == t * Pow2(k)
      invariant decoded < 2000 && (k == 0 ==> decoded < 1000)
      decreases 1000 - decoded
    {
      Doubled(k);
      assert t * (2 * Pow2(k)) == 2 * (t * Pow2(k));
      b := b - 1;
      k := k + 1;
      decoded := 2 * decoded;
    }
    var a := (decoded - 1000 + 124) / 125;
    LowCode(t, decoded, k, a);
    code := a + 8 * b;
  }

  lemma Halved(t: nat, d: nat, p: nat)
    requires (d - 1) * p < t <= d * p && d > 1875
    ensures ((d + 1) / 2 - 1) * (2 * p) < t <= (d + 1) / 2 * (2 * p)
    ensures 1875 * p < t
  {
    var h := (d + 1) / 2;
    assert h * (2 * p) == (2 * h) * p && (h - 1) * (2 * p) == (2 * h - 2) * p;
    MulMono(d, 2 * h, p);
    MulMono(2 * h - 2, d - 1, p);
    MulMono(1875, d - 1, p);
  }

  lemma HighCode(t: nat, d: nat, k: nat, p: nat, half: nat, a: nat)
    requires k <= 21 && p == Pow2(k) && (d - 1) * p < t <= d * p && 938 <= d <= 1875
    requires a == (d - 1000 + 124) / 125 && (if k == 0 then d == t >= 1000 else p == 2 * half && 1875 * half < t)
    requires k == 21 ==> d <= 1750
    ensures a + 8 * (10 + k) < 255 && IsTimeCode(t, a + 8 * (10 + k))
  {
    hide Pow2, IsTimeCode, Scaled;
    Pow2Ten();
    Pow2Zero();
    Pow2Add(10, k);
    var v := 1000 + 125 * a;
    ScaledIs(a, 10 + k);
    assert v * (1024 * p) == 1024 * (v * p);
    MulMono(d, v, p);
    if a > 0 {
      ScaledIs(a - 1, 10 + k);
      assert (v - 125) * (1024 * p) == 1024 * ((v - 125) * p);
      MulMono(v - 125, d - 1, p);
    } else {
      ScaledIs(7, 9 + k);
      NineBits(k, p, half);
    }
    IsTimeFromScaled(t, a + 8 * (10 + k));
  }

  lemma NineBits(k: nat, p: nat, half: nat)
    requires p == Pow2(k) && (k > 0 ==> p == 2 * half)
    ensures k > 0 ==> Pow2(9 + k) == 1024 * half
    ensures k == 0 ==> Pow2(9) == 512
  {
    assert Pow2(10 + k) == 2 * Pow2(9 + k);
    Pow2Ten();
    Pow2Add(10, k);
  }

  lemma LowCode(t: nat, d: nat, k: nat, a: nat)
    requires 1 <= k <= 10 && d == t * Pow2(k) && 1000 <= d < 2000 && t >= 1
    requires a == (d - 1000 + 124) / 125
    ensures a + 8 * (10 - k) < 255 && IsTimeCode(t, a + 8 * (10 - k))
  {
    hide Pow2, IsTimeCode, Scaled;
    var b := 10 - k;
    var p := Pow2(b);
    LowParts(t, d, k);
    LowBounds(d, a, p);
    if a == 8 {
      ScaledIs(0, b + 1);
      ScaledIs(7, b);
    } else if a > 0 {
      ScaledIs(a, b);
      ScaledIs(a - 1, b);
    } else {
      assert k < 10;
      ScaledIs(0, b);
      ScaledIs(7, b - 1);
    }
    IsTimeFromScaled(t, a + 8 * b);
  }

  lemma LowBounds(d: nat, a: nat, p: nat)
    requires 1000 <= d < 2000 && a == (d - 1000 + 124) / 125 && p > 0
    ensures d * p <= (1000 + 125 * a) * p && a <= 8
    ensures a > 0 ==> (1000 + 125 * (a - 1)) * p < d * p
    ensures a == 0 ==> d == 1000
    ensures a == 8 ==> 1000 * (2 * p) == (1000 + 125 * a) * p
  {
    MulMono(d, 1000 + 125 * a, p);
    if a > 0 {
      MulMono(1000 + 125 * (a - 1), d - 1, p);
      assert (d - 1) * p == d * p - p;
    }
  }

  lemma LowParts(t: nat, d: nat, k: nat)
    requires 1 <= k <= 10 && d == t * Pow2(k)
    ensures d * Pow2(10 - k) == 1024 * t && Pow2(11 - k) == 2 * Pow2(10 - k)
    ensures k < 10 ==> Pow2(10 - k) == 2 * Pow2(9 - k)
    ensures k == 10 ==> d == 1024 * t
  {
    Pow2Ten();
    Pow2Add(k, 10 - k);
    assert d * Pow2(10 - k) == t * (Pow2(k) * Pow2(10 - k));
  }

  // ---------- Metrics ----------

  const METRIC_MIN := 1
  const METRIC_MAX := 0xffff00
  const METRIC_INFINITE := 0xffffff

  /** struct rfc7181_metric_field */
  datatype MetricField = MetricField(b0: Byte, b1: Byte)
  {
    /** The code of 12 bits. */
    function Code(): (r: nat) {
      256 * (b0 % 16) + b1
    }
  }

  /** rfc7181_metric_decode */
  function MetricDecode(f: MetricField): (m: int) {
    ShiftLeft(257 + f.b1, f.b0 % 16) - 256
  }

  function DecodeCode(code: nat): (m: int) {
    (257 + code % 256) * Pow2(code / 256) - 256
  }

  /** Metrics as codes of 12 bits; the upper half of the first byte does not matter. */
  lemma DecodeCodeIs(f: MetricField)
    ensures MetricDecode(f) == DecodeCode(f.Code())
  {
    assert f.Code() / 256 == f.b0 % 16 && f.Code() % 256 == f.b1;
  }

  /** code is the least code that decodes to m or more. */
  predicate IsMetricCode(m: nat, code: nat) {
    code < 4096 && m <= DecodeCode(code) && (code > 0 ==> DecodeCode(code - 1) < m)
  }

  /** The steps between codes: they double with every 256th, with a step of the new size at the end. */
  lemma MetricNext(code: nat)
    ensures DecodeCode(code + 1) == DecodeCode(code) + (if code % 256 == 255 then 2 else 1) * Pow2(code / 256)
  {
    hide Pow2;
    var p := Pow2(code / 256);
    Doubled(code / 256);
    if code % 256 == 255 {
      assert (code + 1) / 256 == code / 256 + 1 && (code + 1) % 256 == 0;
      assert DecodeCode(code + 1) == 257 * (2 * p) - 256;
    } else {
      assert (code + 1) / 256 == code / 256 && (code + 1) % 256 == code % 256 + 1;
      assert DecodeCode(code + 1) == DecodeCode(code) + p;
    }
  }

  lemma {:induction false} MetricMonotone(c: nat, d: nat)
    requires c <= d
    ensures DecodeCode(c) <= DecodeCode(d) && (c < d ==> DecodeCode(c) < DecodeCode(d))
    decreases d - c
  {
    hide DecodeCode;
    if c < d {
      MetricNext(c);
      MetricMonotone(c + 1, d);
    }
  }

  /** Encoding and decoding are a Galois connection between metrics and codes. */
  lemma MetricGalois(m: nat, code: nat, c: nat)
    requires IsMetricCode(m, code)
    ensures code <= c <==> m <= DecodeCode(c)
  {
    hide DecodeCode;
    if code <= c {
      MetricMonotone(code, c);
    } else {
      MetricMonotone(c, code - 1);
    }
  }

  lemma MetricMaxIs()
    ensures DecodeCode(4095) == METRIC_MAX && DecodeCode(0) == 1
    ensures Pow2(15) == 32768
  {
    Pow2Ten();
    Pow2Add(10, 5);
  }

  /** Every code of 12 bits is a metric in the range of the encoder and survives decoding and encoding. */
  lemma MetricStable(c: nat, code: nat)
    requires c < 4096 && IsMetricCode(DecodeCode(c), code)
    ensures code == c && METRIC_MIN <= DecodeCode(c) <= METRIC_MAX
  {
    hide DecodeCode;
    MetricMaxIs();
    MetricMonotone(0, c);
    MetricMonotone(c, 4095);
    MetricGalois(DecodeCode(c), code, c);
    if code < c {
      MetricMonotone(code, c);
    }
  }

  /** Rounding up costs less than one part in 256. */
  lemma MetricRounding(m: nat, code: nat)
    requires METRIC_MIN <= m <= METRIC_MAX && IsMetricCode(m, code)
    ensures 256 * (DecodeCode(code) - m) < m + 256
  {
    var p, b := Pow2(code / 256), code % 256;
    if code > 0 {
      if b > 0 {
        assert (code - 1) / 256 == code / 256 && (code - 1) % 256 == b - 1;
        MulMono(256, 257 + b - 1, p);
        assert (257 + b) * p == (257 + b - 1) * p + p;
      } else {
        assert (code - 1) / 256 == code / 256 - 1 && (code - 1) % 256 == 255;
        var h := Pow2(code / 256 - 1);
        assert p == 2 * h;
      }
    }
  }

  /** rfc7181_metric_encode: an error outside the range of metrics, the largest code above the largest finite metric,
   *  else the least code that is not below m. */
  method MetricEncode(m: U32) returns (error: bool, field: MetricField)
    ensures error <==> m < METRIC_MIN || m >= METRIC_INFINITE
    ensures !error && m > METRIC_MAX ==> field.Code() == 4095
    ensures METRIC_MIN <= m <= METRIC_MAX ==> IsMetricCode(m, field.Code()) && field.b0 < 16
  {
    field := MetricField(0, 0);
    if m < METRIC_MIN || m >= METRIC_INFINITE {
      return true, field;
    }
    if m > METRIC_MAX {
      return false, MetricField(0x0f, 0xff);
    }
    field := EncodeFinite(m);
    error := false;
  }

  /** The loop of rfc7181_metric_encode. */
  method EncodeFinite(m: nat) returns (field: MetricField)
    requires METRIC_MIN <= m <= METRIC_MAX
    ensures IsMetricCode(m, field.Code()) && field.b0 < 16
  {
    hide Pow2, IsMetricCode;
    MetricMaxIs();
    Pow2Zero();
    var decoded: int, a: int := m + 256, 0;
    ghost var p: nat, half: nat := 1, 0;
    while decoded > 512
      invariant 257 <= decoded && 0 <= a <= 15 && p == Pow2(a)
      invariant (decoded - 1) * p < m + 256 <= decoded * p
      invariant decoded <= 512 * Pow2(15 - a)
      invariant if a == 0 then decoded == m + 256 else p == 2 * half && 512 * half < m + 256
      decreases decoded
    {
      HalvedMetric(m + 256, decoded, p);
      DoubledMetric(a);
      half := p;
      p := 2 * p;
      a := a + 1;
      decoded := (decoded + 1) / 2;
    }
    MetricCode(m, decoded, a, p, half);
    field := MetricField(a, decoded - 257);
  }

  lemma HalvedMetric(t: nat, d: nat, p: nat)
    requires (d - 1) * p < t <= d * p && d > 512
    ensures ((d + 1) / 2 - 1) * (2 * p) < t <= (d + 1) / 2 * (2 * p)
    ensures 512 * p < t
  {
    var h := (d + 1) / 2;
    assert h * (2 * p) == (2 * h) * p && (h - 1) * (2 * p) == (2 * h - 2) * p;
    MulMono(d, 2 * h, p);
    MulMono(2 * h - 2, d - 1, p);
    MulMono(512, d - 1, p);
  }

  lemma DoubledMetric(a: nat)
    requires a <= 15
    ensures Pow2(a + 1) == 2 * Pow2(a)
    ensures a < 15 ==> Pow2(15 - a) == 2 * Pow2(14 - a)
    ensures a == 15 ==> Pow2(15 - a) == 1
  {
  }

  lemma MetricCode(m: nat, d: nat, a: nat, p: nat, half: nat)
    requires a <= 15 && p == Pow2(a) && 257 <= d <= 512 && (d - 1) * p < m + 256 <= d * p && m >= 1
    requires if a == 0 then d == m + 256 else p == 2 * half && 512 * half < m + 256
    ensures IsMetricCode(m, 256 * a + (d - 257))
  {
    var code := 256 * a + (d - 257);
    assert code / 256 == a && code % 256 == d - 257;
    if code > 0 {
      if d > 257 {
        assert (code - 1) / 256 == a && (code - 1) % 256 == d - 258;
      } else {
        assert (code - 1) / 256 == a - 1 && (code - 1) % 256 == 255;
        assert Pow2(a - 1) == half;
      }
    }
  }

  // ---------- Vectors and sequence numbers ----------

  /** The time at i is for hop counts up to the limit behind it and above all limits before it. */
  ghost predicate AppliesAt(vector: seq<Byte>, hopcount: Byte, i: nat) {
    && i < |vector| && i % 2 == 0 && (i + 1 < |vector| ==> hopcount <= vector[i + 1])
    && forall j :: 0 < j < i && j % 2 == 1 ==> hopcount > vector[j]
  }

  /** rfc5497_timetlv_get_from_vector: the time of the first hop count limit that covers hopcount, or the last time. */
  method TimeFromVector(vector: seq<Byte>, hopcount: Byte) returns (code: Byte)
    ensures |vector| % 2 == 0 ==> code == 255
    ensures |vector| % 2 == 1 ==> exists i: nat :: AppliesAt(vector, hopcount, i) && code == vector[i]
  {
    if |vector| % 2 == 0 {
      return 255;
    }
    var i := 1;
    while i < |vector|
      invariant i % 2 == 1 && 1 <= i <= |vector|
      invariant forall j :: 0 < j < i && j % 2 == 1 ==> hopcount > vector[j]
    {
      if hopcount <= vector[i] {
        assert AppliesAt(vector, hopcount, i - 1);
        return vector[i - 1];
      }
      i := i + 2;
    }
    assert AppliesAt(vector, hopcount, i - 1);
    code := vector[i - 1];
  }

  /** rfc5444_seqno_difference. Two numbers that are 2^15 apart differ by 2^15 with the sign of the larger one. */
  function SeqnoDifference(s1: U16, s2: U16): (d: int)
    ensures -0x8000 <= d <= 0x8000 && (s2 + d) % 0x1_0000 == s1
    ensures (d == 0x8000 ==> s1 > s2) && (d == -0x8000 ==> s1 < s2)
  {
    var diff := s1 - s2;
    if diff > 0x8000 then diff - 0x1_0000 else if diff < -0x8000 then diff + 0x1_0000 else diff
  }

  /** The difference changes its sign with the order of the numbers. */
  lemma SeqnoAntisymmetric(s1: U16, s2: U16)
    ensures SeqnoDifference(s1, s2) == -SeqnoDifference(s2, s1)
  {
  }
}
