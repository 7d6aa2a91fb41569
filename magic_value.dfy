/**
 * The two field decoders of the DALI-2 telemetry frame:
 *
 *  - `IntAnyLength`: a big-endian integer of up to four bytes, assembled with
 *    JavaScript's 32-bit `<<=` so that a four-byte value comes out signed;
 *  - `FloatFromScale`: a "scaled decimal" whose first byte is a signed power
 *    of ten and whose remaining one to eight bytes are the mantissa, read as a
 *    signed 64-bit big-endian integer after left padding with zero bytes.
 *    A negative exponent is applied by writing the mantissa in decimal,
 *    inserting a '.' with `substr` and parsing the text back with `Number`.
 *
 * Both are modelled twice: as a function stating the value, and as the loop
 * the decoder runs, proved to compute that value.
 */
module MagicValue {
  import opened Wrappers
  import opened Decimal

  type Byte = b: int | 0 <= b < 256

  /** The two ways a decoder gives up: the thrown length error, or a read past the buffer. */
  datatype DecodeError = InvalidFieldLength(count: int) | BufferOutOfRange

  const TWO31: int := 0x8000_0000
  const TWO32: int := 0x1_0000_0000
  const TWO63: int := 0x8000_0000_0000_0000
  const TWO64: int := 0x1_0000_0000_0000_0000

  function Pow256(n: nat): (r: nat)
    ensures r >= 1
  {
    if n == 0 then 1 else 256 * Pow256(n - 1)
  }

  /** The unsigned big-endian value of a byte string. */
  function BigEndian(s: seq<Byte>): (r: nat)
    ensures r < Pow256(|s|)
  {
    if s == [] then 0
    else
      var hi := BigEndian(s[..|s| - 1]);
      assert hi * 256 <= (Pow256(|s| - 1) - 1) * 256;
      hi * 256 + s[|s| - 1]
  }

  /** JavaScript's ToInt32: the integer modulo 2^32, read as two's complement. */
  function ToInt32(x: int): (r: int)
    ensures -TWO31 <= r < TWO31
    ensures -TWO31 <= x < TWO31 ==> r == x
  {
    var m := x % 0x1_0000_0000;
    if m >= TWO31 then m - TWO32 else m
  }

  /** ToInt32 keeps the integer's residue modulo 2^32. */
  lemma ToInt32Congruent(x: int)
    ensures (x - ToInt32(x)) % 0x1_0000_0000 == 0
  {
  }

  /** `Buffer.readInt8`: one byte as two's complement. */
  function Int8(b: Byte): (r: int)
    ensures -128 <= r < 128
    ensures r < 0 <==> b >= 128
    ensures (b - r) % 256 == 0
  {
    if b >= 128 then b - 256 else b
  }

  /** `Buffer.readBigInt64BE` on an unsigned eight-byte value: two's complement over 64 bits. */
  function Int64(u: nat): (r: int)
    requires u < TWO64
    ensures -TWO63 <= r < TWO63
    ensures r < 0 <==> u >= TWO63
    ensures (u - r) % 0x1_0000_0000_0000_0000 == 0
  {
    if u >= TWO63 then u - TWO64 else u
  }

  function Zeros(n: nat): (z: seq<Byte>)
    ensures |z| == n
    ensures forall i :: 0 <= i < n ==> z[i] == 0
  {
    if n == 0 then [] else [0] + Zeros(n - 1)
  }

  // ---------------------------------------------------------------------------
  // magicGetIntAnyLength

  /** The number of bytes `[start, stop]` covers, as the decoder computes it. */
  function IntLength(start: nat, stop: int): int {
    stop - start + 1
  }

  /**
   * The reads `IntAnyLength` makes stay inside the buffer: the first byte is
   * always read, the others only when the length is accepted.
   */
  predicate IntInRange(buf: seq<Byte>, start: nat, stop: int) {
    start < |buf| && (IntLength(start, stop) <= 4 ==> stop < |buf|)
  }

  /**
   * The integer at bytes `[start, stop]`: at most four bytes, big-endian; a
   * range of one byte or fewer yields the byte at `start`; four bytes are read
   * as a signed 32-bit value.
   */
  function IntAnyLength(buf: seq<Byte>, start: nat, stop: int): (r: Result<int, DecodeError>)
    requires IntInRange(buf, start, stop)
    ensures r.Err? <==> IntLength(start, stop) > 4
    ensures r.Err? ==> r.error == InvalidFieldLength(IntLength(start, stop))
    ensures IntLength(start, stop) <= 1 ==> r == Ok(buf[start])
    ensures 2 <= IntLength(start, stop) <= 3 ==> r == Ok(BigEndian(buf[start..stop + 1]))
    ensures IntLength(start, stop) == 4 ==>
      r.Ok? && (r.value - BigEndian(buf[start..stop + 1])) % 0x1_0000_0000 == 0 && -TWO31 <= r.value < TWO31
  {
    var length := IntLength(start, stop);
    if length > 4 then Err(InvalidFieldLength(length))
    else if length <= 1 then Ok(buf[start])
    else
      assert Pow256(length) <= Pow256(4) by { Pow256Mono(length, 4); }
      ToInt32Congruent(BigEndian(buf[start..stop + 1]));
      Ok(ToInt32(BigEndian(buf[start..stop + 1])))
  }

  /** The powers the decoders need, written out. */
  lemma Pow256Values()
    ensures Pow256(3) == 0x100_0000 && Pow256(4) == TWO32
    ensures Pow256(7) == 0x100_0000_0000_0000 && Pow256(8) == TWO64
  {
  }

  lemma {:induction false} Pow256Mono(m: nat, n: nat)
    requires m <= n
    ensures Pow256(m) <= Pow256(n)
    decreases n
  {
    if m < n {
      Pow256Mono(m, n - 1);
    }
  }

  /** Appending a byte shifts the value up by one byte. */
  lemma BigEndianSnoc(s: seq<Byte>, b: Byte)
    ensures BigEndian(s + [b]) == BigEndian(s) * 256 + b
  {
    assert (s + [b])[..|s|] == s;
  }

  /**
   * One turn of the decoder's loop: `value <<= 8` then `value += b`, on a value
   * of at most three bytes, is the 32-bit reading of the value with `b` appended.
   */
  lemma ShiftStep(v: nat, b: Byte)
    requires v < Pow256(3)
    ensures ToInt32(ToInt32(ToInt32(v)) * 256) + b == ToInt32(v * 256 + b)
  {
    assert Pow256(3) == 0x100_0000;
    assert ToInt32(ToInt32(v)) == v;
    var w := v * 256;
    assert w < TWO32;
    if w >= TWO31 {
      assert ToInt32(w) == w - TWO32;
      assert ToInt32(w + b) == w + b - TWO32;
    } else {
      assert w <= TWO31 - 256 by {
        assert v < 0x80_0000;
      }
    }
  }

  /** One turn of the loop on the first `counter` bytes at `start` takes in the next byte. */
  lemma IntStep(buf: seq<Byte>, start: nat, prev: nat, counter: nat, before: int, value: int)
    requires 1 <= prev <= 3 && counter == prev + 1 && start + counter <= |buf|
    requires before == ToInt32(BigEndian(buf[start..start + prev]))
    requires value == ToInt32(ToInt32(before) * 256) + buf[start + prev]
    ensures value == ToInt32(BigEndian(buf[start..start + counter]))
  {
    var prefix, b := buf[start..start + prev], buf[start + prev];
    assert buf[start..start + counter] == prefix + [b];
    BigEndianSnoc(prefix, b);
    Pow256Mono(prev, 3);
    ShiftStep(BigEndian(prefix), b);
  }

  /** The decoder as it runs: the first byte, then shift-and-add once per further byte. */
  method GetIntAnyLength(buf: seq<Byte>, start: nat, stop: int) returns (r: Result<int, DecodeError>)
    requires IntInRange(buf, start, stop)
    ensures r == IntAnyLength(buf, start, stop)
  {
    var length := stop - start + 1;
    var value: int := buf[start];
    if length > 4 {
      return Err(InvalidFieldLength(length));
    }
    var counter := 1;
    while counter < length
      invariant 1 <= counter && (counter == 1 || counter <= length)
      invariant start + counter <= |buf|
      invariant value == ToInt32(BigEndian(buf[start..start + counter]))
    {
      ghost var before, prev := value, counter;
      value := ToInt32(ToInt32(value) * 256);
      value := value + buf[start + counter];
      counter := counter + 1;
      IntStep(buf, start, prev, counter, before, value);
    }
    if length <= 1 {
      assert buf[start..start + 1] == [buf[start]];
      assert BigEndian([buf[start]]) == buf[start] by { BigEndianSnoc([], buf[start]); }
    } else {
      assert counter == length;
    }
    return Ok(value);
  }

  /** The leading byte carries the weight of all the bytes after it. */
  lemma {:induction false} BigEndianFirst(s: seq<Byte>)
    requires |s| >= 1
    ensures BigEndian(s) == s[0] * Pow256(|s| - 1) + BigEndian(s[1..])
    decreases |s|
  {
    if |s| == 1 {
      BigEndianOne(s);
    } else {
      var init := s[..|s| - 1];
      BigEndianFirst(init);
      FirstStep(s, init, BigEndian(init[1..]));
    }
  }

  lemma SnocParts(s: seq<Byte>, init: seq<Byte>, last: Byte)
    requires |s| >= 2 && init == s[..|s| - 1] && last == s[|s| - 1]
    ensures s == init + [last] && s[1..] == init[1..] + [last] && init[0] == s[0]
  {
    assert s[1..] == init[1..] + [last];
  }

  lemma BigEndianOne(s: seq<Byte>)
    requires |s| == 1
    ensures BigEndian(s) == s[0] * Pow256(|s| - 1) + BigEndian(s[1..])
  {
    assert s[1..] == [] && s[..0] == [];
  }

  /** The step of `BigEndianFirst`: from the split of all but the last byte to the split of all of them. */
  lemma FirstStep(s: seq<Byte>, init: seq<Byte>, lo: nat)
    requires |s| >= 2 && init == s[..|s| - 1] && lo == BigEndian(init[1..])
    requires BigEndian(init) == init[0] * Pow256(|init| - 1) + lo
    ensures BigEndian(s) == s[0] * Pow256(|s| - 1) + BigEndian(s[1..])
  {
    var last := s[|s| - 1];
    SnocParts(s, init, last);
    BigEndianSnoc(init[1..], last);
    BigEndianSnoc(init, last);
    assert Pow256(|s| - 1) == 256 * Pow256(|s| - 2);
    ShiftWeight(s[0], Pow256(|s| - 2), Pow256(|s| - 1), lo, last);
  }

  lemma ShiftWeight(h: nat, p: nat, q: nat, lo: nat, b: nat)
    requires q == 256 * p
    ensures (h * p + lo) * 256 + b == h * q + (lo * 256 + b)
  {
  }

  /** A four-byte integer is negative exactly when the high bit of its first byte is set. */
  lemma FourByteSign(buf: seq<Byte>, start: nat, stop: int)
    requires IntInRange(buf, start, stop) && IntLength(start, stop) == 4
    ensures IntAnyLength(buf, start, stop).Ok?
    ensures IntAnyLength(buf, start, stop).value < 0 <==> buf[start] >= 128
  {
    var s := buf[start..stop + 1];
    TopBitSign(s);
    Pow256Values();
  }

  /** The top bit of the first byte decides whether a byte string's value reaches half its range. */
  lemma TopBitSign(s: seq<Byte>)
    requires |s| >= 1
    ensures BigEndian(s) >= 128 * Pow256(|s| - 1) <==> s[0] >= 128
  {
    BigEndianFirst(s);
    TopBit(s[0], Pow256(|s| - 1), BigEndian(s[1..]));
  }

  lemma TopBit(h: nat, p: nat, lo: nat)
    requires h < 256 && lo < p
    ensures h * p + lo >= 128 * p <==> h >= 128
  {
    if h >= 128 {
      assert h * p >= 128 * p;
    } else {
      assert h * p <= 127 * p;
    }
  }

  /** The sample call left beside the decoder: bytes 2..3 of [0, 1, 0, 2, 5, 3, 0, 4] read as 2. */
  lemma IntAnyLengthSample()
    ensures IntAnyLength([0, 1, 0, 2, 5, 3, 0, 4], 2, 3) == Ok(2)
  {
    var buf: seq<Byte> := [0, 1, 0, 2, 5, 3, 0, 4];
    assert buf[2..4] == [0] + [2];
    BigEndianSnoc([0], 2);
    BigEndianSnoc([], 0);
    assert [] + [0] == [0 as Byte];
  }

  // ---------------------------------------------------------------------------
  // magicGetFloatFromScale

  /** The mantissa width the decoder checks before reading anything. */
  function SpanOf(start: nat, stop: int): int {
    stop - start
  }

  predicate ValidSpan(start: nat, stop: int) {
    1 <= SpanOf(start, stop) <= 8
  }

  /** The eight bytes handed to `readBigInt64BE`: the mantissa bytes after the scale byte, zero padded on the left. */
  function MantissaBytes(buf: seq<Byte>, start: nat, stop: int): (w: seq<Byte>)
    requires ValidSpan(start, stop) && stop < |buf|
    ensures |w| == 8
  {
    Zeros(8 - SpanOf(start, stop)) + buf[start + 1..stop + 1]
  }

  function Mantissa(buf: seq<Byte>, start: nat, stop: int): int
    requires ValidSpan(start, stop) && stop < |buf|
  {
    Pow256Values();
    Int64(BigEndian(MantissaBytes(buf, start, stop)))
  }

  /**
   * `m * 10 ** scale` for a non-negative scale; for a negative one, the text
   * `String(m)` cut with `substr` at `length + scale`, joined by a '.', and read
   * back with `Number`.
   */
  function ScaledValue(m: int, scale: int): JsNumber {
    if scale >= 0 then Num(m as real * Pow10(scale) as real)
    else
      var text := DecimalString(m);
      var dot := |text| + scale;
      NumericJoin(text, dot);
      ParseNumber(Substr(text, 0, dot) + "." + SubstrFrom(text, dot))
  }

  lemma NumericJoin(text: string, dot: int)
    requires NumericText(text)
    ensures NumericText(Substr(text, 0, dot) + "." + SubstrFrom(text, dot))
  {
    var a, b := Substr(text, 0, dot), SubstrFrom(text, dot);
    var from := SubstrStart(text, 0);
    var j := SubstrStart(text, dot);
    assert forall i :: 0 <= i < |a| ==> a[i] == text[from + i];
    assert forall i :: 0 <= i < |b| ==> b[i] == text[j + i];
    var t := a + "." + b;
    forall i | 0 <= i < |t|
      ensures IsDigit(t[i]) || t[i] == '-' || t[i] == '.'
    {
      if i < |a| {
        assert t[i] == a[i];
      } else if i > |a| {
        assert t[i] == b[i - |a| - 1];
      }
    }
  }

  /**
   * The scaled decimal at `[start, stop]`: byte `start` is the signed exponent,
   * bytes `start + 1 .. stop` the mantissa. A width outside 1..8 is the thrown
   * length error; a mantissa running past the buffer is a range error.
   */
  function FloatFromScale(buf: seq<Byte>, start: nat, stop: int): (r: Result<JsNumber, DecodeError>)
    ensures r.Err? <==> !ValidSpan(start, stop) || stop >= |buf|
    ensures !ValidSpan(start, stop) ==> r == Err(InvalidFieldLength(SpanOf(start, stop)))
    ensures ValidSpan(start, stop) && stop >= |buf| ==> r == Err(BufferOutOfRange)
  {
    if !ValidSpan(start, stop) then Err(InvalidFieldLength(SpanOf(start, stop)))
    else if stop >= |buf| then Err(BufferOutOfRange)
    else Ok(ScaledValue(Mantissa(buf, start, stop), Int8(buf[start])))
  }

  function Min(a: int, b: int): int {
    if a <= b then a else b
  }

  /**
   * The decoder as it runs: slice the mantissa bytes (a slice past the end is
   * cut short, as `Buffer.slice` does), prepend one zero per missing byte,
   * and fail when fewer than eight bytes result.
   */
  method GetFloatFromScale(buf: seq<Byte>, start: nat, stop: int) returns (r: Result<JsNumber, DecodeError>)
    ensures r == FloatFromScale(buf, start, stop)
  {
    var count := stop - start;
    if count < 1 || count > 8 {
      return Err(InvalidFieldLength(count));
    }
    var lo := Min(start + 1, |buf|);
    var hi := Min(stop + 1, |buf|);
    var values := buf[lo..hi];
    while count < 8
      invariant SpanOf(start, stop) <= count <= 8
      invariant values == Zeros(count - SpanOf(start, stop)) + buf[lo..hi]
    {
      ghost var prev := count;
      values := [0] + values;
      count := count + 1;
      PadOne(values, buf[lo..hi], prev - SpanOf(start, stop), count - SpanOf(start, stop));
    }
    Padded(buf, start, stop, count, lo, hi, values);
    if |values| != 8 {
      return Err(BufferOutOfRange);
    }
    var big := Int64(BigEndian(values));
    var scale := Int8(buf[start]);
    r := Ok(ScaledValue(big, scale));
  }

  /** One more zero in front of `n` zeros and the bytes makes `n + 1` zeros and the bytes. */
  lemma PadOne(values: seq<Byte>, bytes: seq<Byte>, n: nat, next: nat)
    requires next == n + 1 && values == [0] + (Zeros(n) + bytes)
    ensures values == Zeros(next) + bytes
  {
  }

  /** After padding, eight bytes are there exactly when the field ends inside the buffer, and they are the mantissa bytes. */
  lemma Padded(buf: seq<Byte>, start: nat, stop: int, count: int, lo: int, hi: int, values: seq<Byte>)
    requires ValidSpan(start, stop) && count == 8
    requires lo == Min(start + 1, |buf|) && hi == Min(stop + 1, |buf|)
    requires 0 <= lo <= hi <= |buf| && values == Zeros(count - SpanOf(start, stop)) + buf[lo..hi]
    ensures |values| == 8 <==> stop < |buf|
    ensures stop < |buf| ==> values == MantissaBytes(buf, start, stop) && BigEndian(values) < TWO64
  {
    if stop < |buf| {
      assert lo == start + 1 && hi == stop + 1;
      Pow256Values();
    }
  }

  /** Leading zero bytes add nothing. */
  lemma {:induction false} BigEndianZeros(n: nat, s: seq<Byte>)
    ensures BigEndian(Zeros(n) + s) == BigEndian(s)
    decreases |s|
  {
    if s == [] {
      assert Zeros(n) + s == Zeros(n);
      ZerosValue(n);
    } else {
      var init := s[..|s| - 1];
      var last := s[|s| - 1];
      BigEndianZeros(n, init);
      assert Zeros(n) + s == (Zeros(n) + init) + [last];
      assert s == init + [last];
      BigEndianSnoc(Zeros(n) + init, last);
      BigEndianSnoc(init, last);
    }
  }

  lemma {:induction false} ZerosValue(n: nat)
    ensures BigEndian(Zeros(n)) == 0
    decreases n
  {
    if n > 0 {
      ZerosValue(n - 1);
      assert Zeros(n) == Zeros(n - 1) + [0] by {
        ZerosSnoc(n);
      }
      BigEndianSnoc(Zeros(n - 1), 0);
    }
  }

  lemma ZerosSnoc(n: nat)
    requires n > 0
    ensures Zeros(n) == Zeros(n - 1) + [0]
  {
  }

  /**
   * The mantissa of a field narrower than eight bytes is the unsigned value
   * of its bytes; an eight-byte mantissa is signed, negative exactly when the
   * first mantissa byte has its high bit set.
   */
  lemma MantissaValue(buf: seq<Byte>, start: nat, stop: int)
    requires ValidSpan(start, stop) && stop < |buf|
    ensures SpanOf(start, stop) < 8 ==> Mantissa(buf, start, stop) == BigEndian(buf[start + 1..stop + 1])
    ensures SpanOf(start, stop) < 8 ==> 0 <= Mantissa(buf, start, stop) < Pow256(SpanOf(start, stop))
    ensures SpanOf(start, stop) == 8 ==> (Mantissa(buf, start, stop) < 0 <==> buf[start + 1] >= 128)
  {
    if SpanOf(start, stop) < 8 {
      ShortMantissa(buf, start, stop);
    } else {
      FullMantissa(buf, start, stop);
    }
  }

  lemma ShortMantissa(buf: seq<Byte>, start: nat, stop: int)
    requires ValidSpan(start, stop) && stop < |buf| && SpanOf(start, stop) < 8
    ensures Mantissa(buf, start, stop) == BigEndian(buf[start + 1..stop + 1]) < Pow256(SpanOf(start, stop))
  {
    var bytes := buf[start + 1..stop + 1];
    BigEndianZeros(8 - SpanOf(start, stop), bytes);
    Pow256Mono(|bytes|, 7);
    Pow256Values();
    assert BigEndian(bytes) < TWO63;
  }

  lemma FullMantissa(buf: seq<Byte>, start: nat, stop: int)
    requires ValidSpan(start, stop) && stop < |buf| && SpanOf(start, stop) == 8
    ensures Mantissa(buf, start, stop) < 0 <==> buf[start + 1] >= 128
  {
    BigEndianZeros(0, buf[start + 1..stop + 1]);
    TopBitSign(buf[start + 1..stop + 1]);
    Pow256Values();
  }

  /** The magnitude `|m|` as decimal digits. */
  function MagnitudeDigits(m: int): string {
    if m < 0 then Digits(-m) else Digits(m)
  }

  /**
   * For a negative scale, the value is the text `t` read back, where `t` joins
   * the head `a` and the tail `b` of `text`, the decimal text of `m`.
   */
  lemma JoinedText(m: int, scale: int, text: string, a: string, b: string, t: string)
    requires scale < 0 && text == DecimalString(m)
    requires a == Substr(text, 0, |text| + scale) && b == SubstrFrom(text, |text| + scale)
    requires t == a + "." + b
    ensures NumericText(t) && ScaledValue(m, scale) == ParseNumber(t)
  {
    NumericJoin(text, |text| + scale);
  }

  /**
   * A negative exponent that does not exceed the number of digits of the
   * mantissa divides it exactly: the '.' lands inside or right before the digits.
   */
  lemma ScaledExact(m: int, scale: int)
    requires scale < 0 && |MagnitudeDigits(m)| + scale >= 0
    ensures ScaledValue(m, scale) == Num(m as real / Pow10(-scale) as real)
  {
    if m >= 0 {
      ScaledExactDigits(m, scale);
    } else {
      ScaledExactSigned(m, scale);
    }
  }

  lemma ScaledExactDigits(m: nat, scale: int)
    requires scale < 0 && |Digits(m)| + scale >= 0
    ensures ScaledValue(m, scale) == Num(m as real / Pow10(-scale) as real)
  {
    var t := DigitsJoin(m, scale);
    ScaledDottedDigits(Digits(m), |Digits(m)| + scale, scale, m, t);
  }

  /** `DottedDigits` with the place count given as the negated scale. */
  lemma ScaledDottedDigits(d: string, k: nat, scale: int, m: int, t: string)
    requires AllDigits(d) && k < |d| && DigitsValue(d) == m && -scale == |d| - k
    requires t == d[..k] + "." + d[k..]
    ensures NumericText(t) && ParseNumber(t) == Num(m as real / Pow10(-scale) as real)
  {
    DotInsertion(d, k);
    DivCongruence(DigitsValue(d), m, Pow10(|d| - k), Pow10(-scale));
  }

  /** The text a non-negative `m` is read back from: the head of its digits, '.', the tail. */
  lemma DigitsJoin(m: nat, scale: int) returns (t: string)
    requires scale < 0 && |Digits(m)| + scale >= 0
    ensures NumericText(t) && ScaledValue(m, scale) == ParseNumber(t)
    ensures t == Digits(m)[..|Digits(m)| + scale] + "." + Digits(m)[|Digits(m)| + scale..]
  {
    var text := DecimalString(m);
    var a, b := Substr(text, 0, |text| + scale), SubstrFrom(text, |text| + scale);
    t := a + "." + b;
    JoinedText(m, scale, text, a, b, t);
    assert a == Digits(m)[..|Digits(m)| + scale] && b == Digits(m)[|Digits(m)| + scale..];
  }

  lemma ScaledExactSigned(m: int, scale: int)
    requires m < 0 && scale < 0 && |Digits(-m)| + scale >= 0
    ensures ScaledValue(m, scale) == Num(m as real / Pow10(-scale) as real)
  {
    var t := SignedJoin(m, scale);
    NegatedDottedDigits(Digits(-m), |Digits(-m)| + scale, scale, m, t);
  }

  /** The text a negative `m` is read back from: the sign, the head of its digits, '.', the tail. */
  lemma SignedJoin(m: int, scale: int) returns (t: string)
    requires m < 0 && scale < 0 && |Digits(-m)| + scale >= 0
    ensures NumericText(t) && ScaledValue(m, scale) == ParseNumber(t)
    ensures t == "-" + Digits(-m)[..|Digits(-m)| + scale] + "." + Digits(-m)[|Digits(-m)| + scale..]
  {
    var text := DecimalString(m);
    var a, b := Substr(text, 0, |text| + scale), SubstrFrom(text, |text| + scale);
    t := a + "." + b;
    JoinedText(m, scale, text, a, b, t);
    SignedParts(m, scale, text, a, b);
  }

  /** Cut where the dot goes, the text of a negative `m` is the sign with the digits before the cut, and the digits after it. */
  lemma SignedParts(m: int, scale: int, text: string, a: string, b: string)
    requires m < 0 && scale < 0 && |Digits(-m)| + scale >= 0 && text == DecimalString(m)
    requires a == Substr(text, 0, |text| + scale) && b == SubstrFrom(text, |text| + scale)
    ensures a == "-" + Digits(-m)[..|Digits(-m)| + scale] && b == Digits(-m)[|Digits(-m)| + scale..]
  {
    assert text == "-" + Digits(-m);
  }

  /** Digits of `m` with a '.' put `p` places from the end read back as `m / 10^p`. */
  lemma DottedDigits(d: string, k: nat, p: nat, m: int, t: string)
    requires AllDigits(d) && k < |d| && DigitsValue(d) == m && p == |d| - k
    requires t == d[..k] + "." + d[k..]
    ensures NumericText(t) && ParseNumber(t) == Num(m as real / Pow10(p) as real)
  {
    DotInsertion(d, k);
    DivCongruence(DigitsValue(d), m, Pow10(|d| - k), Pow10(p));
  }

  /** The same behind a '-' sign, for the digits of `-m`. */
  lemma NegatedDottedDigits(d: string, k: nat, scale: int, m: int, t: string)
    requires AllDigits(d) && k < |d| && DigitsValue(d) == -m && -scale == |d| - k
    requires NumericText(t) && t == "-" + d[..k] + "." + d[k..]
    ensures ParseNumber(t) == Num(m as real / Pow10(-scale) as real)
  {
    UnsignedDotInsertion(d, k);
    NegatedText(t, d[..k], d[k..]);
    NegatedQuotient(DigitsValue(d), m, Pow10(|d| - k), Pow10(-scale));
  }

  /** A leading '-' negates what the rest reads as. */
  lemma NegatedText(t: string, x: string, y: string)
    requires NumericText(t) && t == "-" + x + "." + y
    ensures ParseNumber(t) == Negate(ParseUnsigned(x + "." + y))
  {
    assert t[0] == '-' && t[1..] == x + "." + y;
  }

  /** Negating `v / p` gives `m / q` when `m` is `-v` and `q` is `p`. */
  lemma NegatedQuotient(v: int, m: int, p: nat, q: nat)
    requires v == -m && p == q && p >= 1
    ensures Negate(Num(v as real / p as real)) == Num(m as real / q as real)
  {
    NegateDiv(v, p);
  }

  /** Equal numerators over equal denominators. */
  lemma DivCongruence(a: int, b: int, p: nat, q: nat)
    requires a == b && p == q && p >= 1
    ensures a as real / p as real == b as real / q as real
  {
  }

  lemma NegateDiv(v: int, p: nat)
    requires p >= 1
    ensures -(v as real / p as real) == (-v) as real / p as real
  {
  }

  /**
   * A non-negative mantissa with fewer digits than the negative exponent asks
   * for: `substr` clamps the cut, no zeros are inserted, and the value read
   * back is the trailing digits as a fraction, not the mantissa divided by the power.
   */
  lemma ScaledShortMantissa(m: nat, scale: int) returns (j: nat)
    requires scale < 0 && |Digits(m)| + scale < 0
    ensures j == Clamp(2 * |Digits(m)| + scale, 0, |Digits(m)|) && j < |Digits(m)|
    ensures ScaledValue(m, scale) == Num(DigitsValue(Digits(m)[j..]) as real / Pow10(|Digits(m)| - j) as real)
  {
    var d := Digits(m);
    j := Clamp(2 * |d| + scale, 0, |d|);
    assert DecimalString(m) == d;
    var a, b := Substr(d, 0, |d| + scale), SubstrFrom(d, |d| + scale);
    var t := a + "." + b;
    JoinedText(m, scale, d, a, b, t);
    var f := d[j..];
    CutBeforeStart(d, |d| + scale, j);
    assert t == f[..0] + "." + f[0..] by {
      assert f[..0] == [] && f[0..] == f;
    }
    DottedDigits(f, 0, |Digits(m)| - j, DigitsValue(Digits(m)[j..]), t);
  }

  /** A cut before the start of `s` leaves nothing in front, and the tail from the clamped start behind. */
  lemma CutBeforeStart(s: string, cut: int, j: nat)
    requires cut < 0 && j == Clamp(|s| + cut, 0, |s|)
    ensures Substr(s, 0, cut) == [] && SubstrFrom(s, cut) == s[j..]
  {
  }

  /** The mantissa 5 with exponent -3 reads back as 0.5, not 0.005. */
  lemma ScaledShortMantissaSample()
    ensures ScaledValue(5, -3) == Num(0.5)
    ensures 5.0 / Pow10(3) as real == 0.005
  {
    var j := ScaledShortMantissa(5, -3);
    assert Digits(5) == "5";
    assert Digits(5)[0..] == "5";
    assert DigitsValue("5") == 5 by {
      assert "5"[..0] == "";
    }
  }

  /** A negative mantissa whose '.' would land right before its '-' sign reads back as NaN. */
  lemma ScaledNegativeAtSign(m: int, scale: int)
    requires m < 0 && scale < 0 && 1 + |Digits(-m)| + scale == 0
    ensures ScaledValue(m, scale) == NaN
  {
    var text := DecimalString(m);
    var a, b := Substr(text, 0, |text| + scale), SubstrFrom(text, |text| + scale);
    var t := a + "." + b;
    JoinedText(m, scale, text, a, b, t);
    assert a == [] && b == text && text[0] == '-' by {
      assert text == "-" + Digits(-m);
    }
    DotBeforeSign(a, b, t);
  }

  /** A '.' in front of a '-': what follows the dot is not all digits, so the text reads as NaN. */
  lemma DotBeforeSign(a: string, b: string, t: string)
    requires a == [] && |b| >= 1 && b[0] == '-'
    requires NumericText(t) && t == a + "." + b
    ensures ParseNumber(t) == NaN
  {
    assert t[0] == '.' && t[1..] == b;
    IndexOfDotAt(t, 0);
    assert !AllDigits(t[1..]) by {
      assert !IsDigit(t[1..][0]);
    }
  }

  /** Any field whose mantissa is narrower than eight bytes decodes to a number, never NaN. */
  lemma NarrowFieldIsNumber(buf: seq<Byte>, start: nat, stop: int)
    requires ValidSpan(start, stop) && SpanOf(start, stop) < 8 && stop < |buf|
    ensures FloatFromScale(buf, start, stop).Ok?
    ensures FloatFromScale(buf, start, stop).value.Num?
  {
    MantissaValue(buf, start, stop);
    var m := Mantissa(buf, start, stop);
    var scale := Int8(buf[start]);
    if scale < 0 {
      var d := Digits(m);
      if |d| + scale >= 0 {
        ScaledExact(m, scale);
      } else {
        var j := ScaledShortMantissa(m, scale);
      }
    }
  }

  /**
   * The sample call left beside the decoder: exponent byte 2 at index 3 and
   * mantissa bytes [5, 3] give 1283 * 10^2.
   */
  lemma FloatFromScaleSample()
    ensures FloatFromScale([0, 1, 0, 2, 5, 3, 0, 4], 3, 5) == Ok(Num(128300.0))
  {
    var buf: seq<Byte> := [0, 1, 0, 2, 5, 3, 0, 4];
    ShortMantissa(buf, 3, 5);
    assert buf[4..6] == [5, 3];
    BigEndianPair(5, 3);
    assert Mantissa(buf, 3, 5) == 1283 && Int8(buf[3]) == 2;
    ScaledUp(1283, 2);
  }

  /**
   * The decoded value spelled out: the mantissa is the big-endian value of
   * bytes `start + 1 .. stop` (two's complement when all eight are given),
   * multiplied by 10 to the exponent byte when that is non-negative, and
   * divided by 10 to its negation when it is negative but has no more places
   * than the mantissa has digits.
   */
  lemma FloatFromScaleValue(buf: seq<Byte>, start: nat, stop: int) returns (m: int, e: int)
    requires ValidSpan(start, stop) && stop < |buf|
    ensures e == Int8(buf[start]) && FloatFromScale(buf, start, stop) == Ok(ScaledValue(m, e))
    ensures SpanOf(start, stop) < 8 ==> m == BigEndian(buf[start + 1..stop + 1])
    ensures SpanOf(start, stop) == 8 ==> m == Int64(BigEndian(buf[start + 1..stop + 1]))
    ensures e >= 0 ==> FloatFromScale(buf, start, stop) == Ok(Num(m as real * Pow10(e) as real))
    ensures e < 0 && |MagnitudeDigits(m)| + e >= 0 ==> FloatFromScale(buf, start, stop) == Ok(Num(m as real / Pow10(-e) as real))
  {
    m, e := Mantissa(buf, start, stop), Int8(buf[start]);
    MantissaBytesValue(buf, start, stop);
    ScaledCases(m, e);
  }

  lemma MantissaBytesValue(buf: seq<Byte>, start: nat, stop: int)
    requires ValidSpan(start, stop) && stop < |buf|
    ensures SpanOf(start, stop) < 8 ==> Mantissa(buf, start, stop) == BigEndian(buf[start + 1..stop + 1])
    ensures SpanOf(start, stop) == 8 ==> Mantissa(buf, start, stop) == Int64(BigEndian(buf[start + 1..stop + 1]))
  {
    if SpanOf(start, stop) < 8 {
      ShortMantissa(buf, start, stop);
    } else {
      assert MantissaBytes(buf, start, stop) == buf[start + 1..stop + 1];
    }
  }

  lemma ScaledCases(m: int, e: int)
    ensures e >= 0 ==> ScaledValue(m, e) == Num(m as real * Pow10(e) as real)
    ensures e < 0 && |MagnitudeDigits(m)| + e >= 0 ==> ScaledValue(m, e) == Num(m as real / Pow10(-e) as real)
  {
    if e < 0 && |MagnitudeDigits(m)| + e >= 0 {
      ScaledExact(m, e);
    }
  }

  lemma ScaledUp(m: int, scale: int)
    requires scale >= 0
    ensures ScaledValue(m, scale) == Num(m as real * Pow10(scale) as real)
  {
  }

  lemma BigEndianPair(a: Byte, b: Byte)
    ensures BigEndian([a, b]) == a * 256 + b
  {
    assert [a, b][..1] == [a] && [a][..0] == [];
  }
}
