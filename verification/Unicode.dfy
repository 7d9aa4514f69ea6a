/**
  bun-extract's UTF-16LE to UTF-8 conversion.

  UTF-16 as in section 2.2 of RFC 2781 and UTF-8 as in section 3 of RFC 3629, both
  generalised to lone surrogates, which the converter passes through as three-byte
  sequences. Shifts and masks are written as division and remainder.
 */
module Unicode {
  import opened Basics

  type Unit = u: int | 0 <= u < 0x10000
  type JsString = seq<Unit>
  type CodePoint = c: int | 0 <= c < 0x110000

  predicate IsHigh(u: Unit) { 0xD800 <= u <= 0xDBFF }
  predicate IsLow(u: Unit) { 0xDC00 <= u <= 0xDFFF }

  /** The whole 16-bit units of the input; an odd last byte is no unit. */
  function Units(input: Bytes): seq<Unit>
  {
    if |input| < 2 then [] else [input[0] as int + 256 * (input[1] as int)] + Units(input[2..])
  }

  /** Units are the little-endian pairs, all of them. */
  lemma {:induction false} UnitsAt(input: Bytes)
    ensures |Units(input)| == |input| / 2
    ensures forall k :: 0 <= k < |input| / 2 ==> Units(input)[k] == input[2 * k] as int + 256 * (input[2 * k + 1] as int)
    decreases |input|
  {
    if |input| >= 2 {
      var rest := input[2..];
      UnitsAt(rest);
      forall k | 0 < k < |input| / 2
        ensures Units(input)[k] == input[2 * k] as int + 256 * (input[2 * k + 1] as int)
      {
        assert Units(input)[k] == Units(rest)[k - 1];
        assert rest[2 * (k - 1)] == input[2 * k] && rest[2 * (k - 1) + 1] == input[2 * k + 1];
      }
    }
  }

  function Combine(high: Unit, low: Unit): CodePoint
    requires IsHigh(high) && IsLow(low)
  {
    0x10000 + (high - 0xD800) * 1024 + (low - 0xDC00)
  }

  predicate PairAhead(units: seq<Unit>)
  {
    |units| >= 2 && IsHigh(units[0]) && IsLow(units[1])
  }

  /** Decoding: surrogate pairs combine, every other unit stands for itself. */
  function CodePoints(units: seq<Unit>): seq<CodePoint>
    decreases |units|
  {
    if units == [] then []
    else if PairAhead(units) then [Combine(units[0], units[1])] + CodePoints(units[2..])
    else [units[0]] + CodePoints(units[1..])
  }

  function EncodeUnits(c: CodePoint): seq<Unit>
  {
    if c >= 0x10000 then [0xD800 + (c - 0x10000) / 1024, 0xDC00 + (c - 0x10000) % 1024] else [c]
  }

  function EncodeUtf16(cs: seq<CodePoint>): seq<Unit>
  {
    if cs == [] then [] else EncodeUnits(cs[0]) + EncodeUtf16(cs[1..])
  }

  lemma {:induction false} PairInverse(high: Unit, low: Unit)
    requires IsHigh(high) && IsLow(low)
    ensures EncodeUnits(Combine(high, low)) == [high, low]
  {
  }

  /** No unit is lost, lone surrogates included. */
  lemma {:induction false} Utf16RoundTrip(units: seq<Unit>)
    ensures EncodeUtf16(CodePoints(units)) == units
    decreases |units|
  {
    if units == [] {
    } else if PairAhead(units) {
      PairInverse(units[0], units[1]);
      hide Combine, EncodeUnits;
      Utf16RoundTrip(units[2..]);
      assert CodePoints(units)[1..] == CodePoints(units[2..]);
      assert units == [units[0], units[1]] + units[2..];
    } else {
      assert EncodeUnits(units[0]) == [units[0]];
      hide Combine, EncodeUnits;
      Utf16RoundTrip(units[1..]);
      assert CodePoints(units)[1..] == CodePoints(units[1..]);
      assert units == [units[0]] + units[1..];
    }
  }

  // ---- UTF-8 -------------------------------------------------------------

  function EncodeOne(c: CodePoint): (b: Bytes)
    ensures 1 <= |b| <= 4
  {
    if c < 0x80 then [c]
    else if c < 0x800 then [0xC0 + c / 64, 0x80 + c % 64]
    else if c < 0x10000 then [0xE0 + c / 4096, 0x80 + c / 64 % 64, 0x80 + c % 64]
    else [0xF0 + c / 262144, 0x80 + c / 4096 % 64, 0x80 + c / 64 % 64, 0x80 + c % 64]
  }

  function EncodeUtf8(cs: seq<CodePoint>): Bytes
  {
    if cs == [] then [] else EncodeOne(cs[0]) + EncodeUtf8(cs[1..])
  }

  predicate IsTail(b: byte) { 0x80 <= b < 0xC0 }

  datatype Decoded = Decoded(c: CodePoint, n: nat)

  /** The code point at the head of `b`, and how many bytes it took. */
  function DecodeOne(b: Bytes): (r: Option<Decoded>)
    ensures r.Some? ==> 1 <= r.value.n <= |b|
  {
    if b == [] then None
    else
      var x := b[0] as int;
      if x < 0x80 then Some(Decoded(x, 1))
      else if 0xC0 <= x < 0xE0 && |b| >= 2 && IsTail(b[1]) then
        Some(Decoded((x - 0xC0) * 64 + (b[1] as int - 0x80), 2))
      else if 0xE0 <= x < 0xF0 && |b| >= 3 && IsTail(b[1]) && IsTail(b[2]) then
        Some(Decoded((x - 0xE0) * 4096 + (b[1] as int - 0x80) * 64 + (b[2] as int - 0x80), 3))
      else if 0xF0 <= x < 0xF8 && |b| >= 4 && IsTail(b[1]) && IsTail(b[2]) && IsTail(b[3]) then
        var c := (x - 0xF0) * 262144 + (b[1] as int - 0x80) * 4096 + (b[2] as int - 0x80) * 64 + (b[3] as int - 0x80);
        if c < 0x110000 then Some(Decoded(c, 4)) else None
      else None
  }

  function DecodeUtf8(b: Bytes): Option<seq<CodePoint>>
    decreases |b|
  {
    if b == [] then Some([])
    else match DecodeOne(b)
      case None => None
      case Some(Decoded(c, n)) =>
        match DecodeUtf8(b[n..])
        case None => None
        case Some(cs) => Some([c] + cs)
  }

  lemma {:induction false} DecodeEncodedOne(c: CodePoint, rest: Bytes)
    ensures DecodeOne(EncodeOne(c) + rest) == Some(Decoded(c, |EncodeOne(c)|))
  {
    var b := EncodeOne(c) + rest;
    assert b[0] == EncodeOne(c)[0];
    assert |EncodeOne(c)| > 1 ==> b[1] == EncodeOne(c)[1];
    assert |EncodeOne(c)| > 2 ==> b[2] == EncodeOne(c)[2];
    assert |EncodeOne(c)| > 3 ==> b[3] == EncodeOne(c)[3];
    Digits64(c);
  }

  lemma {:induction false} Digits64(c: CodePoint)
    ensures c == (c / 64) * 64 + c % 64
    ensures c / 64 == (c / 4096) * 64 + c / 64 % 64
    ensures c / 4096 == (c / 262144) * 64 + c / 4096 % 64
  {
  }

  lemma {:induction false} Utf8RoundTrip(cs: seq<CodePoint>)
    ensures DecodeUtf8(EncodeUtf8(cs)) == Some(cs)
  {
    hide EncodeOne, DecodeOne;
    if cs != [] {
      var head, rest := EncodeOne(cs[0]), EncodeUtf8(cs[1..]);
      DecodeEncodedOne(cs[0], rest);
      Utf8RoundTrip(cs[1..]);
      DecodeCons(head, rest, cs[0], cs[1..]);
      assert cs == [cs[0]] + cs[1..];
    }
  }

  lemma {:induction false} DecodeCons(head: Bytes, rest: Bytes, c: CodePoint, cs: seq<CodePoint>)
    requires head != [] && DecodeOne(head + rest) == Some(Decoded(c, |head|)) && DecodeUtf8(rest) == Some(cs)
    ensures DecodeUtf8(head + rest) == Some([c] + cs)
  {
    hide DecodeOne;
    assert (head + rest)[|head|..] == rest;
  }

  // ---- the converter -----------------------------------------------------

  /** What the converter is to write. */
  function Converted(input: Bytes): Bytes
  {
    EncodeUtf8(CodePoints(Units(input)))
  }

  /** The code point at `i` and how many input bytes it takes. */
  function Next(input: Bytes, i: nat): (r: Decoded)
    requires i + 1 < |input|
    ensures r.n == 2 || (r.n == 4 && i + 4 <= |input|)
    ensures r.n == 2 ==> r.c < 0x10000
  {
    var c := input[i] as int + 256 * (input[i + 1] as int);
    if IsHigh(c) && i + 3 < |input| then
      var lo := input[i + 2] as int + 256 * (input[i + 3] as int);
      if IsLow(lo) then Decoded(Combine(c, lo), 4) else Decoded(c, 2)
    else Decoded(c, 2)
  }

  /** Converting from `i` on: one code point, then the rest. */
  lemma {:induction false} ConvertedStep(input: Bytes, i: nat)
    requires i + 1 < |input|
    ensures var d := Next(input, i);
            Converted(input[i..]) == EncodeOne(d.c) + Converted(input[i + d.n..])
  {
    var s, d := input[i..], Next(input, i);
    var u := Units(s);
    assert s[2..] == input[i + 2..];
    if d.n == 4 {
      assert s[2..][2..] == input[i + 4..];
      var v := Units(s[2..]);
      assert v[0] == input[i + 2] as int + 256 * (input[i + 3] as int) && v[1..] == Units(input[i + 4..]);
      assert u[1..] == v && u[2..] == v[1..];
      assert PairAhead(u);
    } else {
      assert u[1..] == Units(input[i + 2..]);
      assert |u| >= 2 ==> u[1] == s[2..][0] as int + 256 * (s[2..][1] as int);
      assert !PairAhead(u);
    }
    assert CodePoints(u)[0] == d.c;
    assert CodePoints(u)[1..] == CodePoints(Units(input[i + d.n..]));
  }

  /** Store one code point; the four branches of the loop. */
  method PutCodePoint(out: array<byte>, o: nat, c: CodePoint) returns (o': nat)
    requires o + |EncodeOne(c)| <= out.Length
    modifies out
    ensures o' == o + |EncodeOne(c)| && out[..o'] == old(out[..o]) + EncodeOne(c)
  {
    if c < 0x80 {
      out[o] := c;
      o' := o + 1;
    } else if c < 0x800 {
      out[o], out[o + 1] := 0xC0 + c / 64, 0x80 + c % 64;
      o' := o + 2;
    } else if c < 0x10000 {
      out[o], out[o + 1], out[o + 2] := 0xE0 + c / 4096, 0x80 + c / 64 % 64, 0x80 + c % 64;
      o' := o + 3;
    } else {
      out[o], out[o + 1] := 0xF0 + c / 262144, 0x80 + c / 4096 % 64;
      out[o + 2], out[o + 3] := 0x80 + c / 64 % 64, 0x80 + c % 64;
      o' := o + 4;
    }
  }

  /**
    utf16le_to_utf8. It refuses exactly the inputs whose true capacity would wrap
    `size_t`; otherwise no write leaves the buffer and the result is the
    conversion.
   */
  method Utf16leToUtf8(input: Bytes, memory: bool) returns (r: Option<Bytes>)
    ensures r.Some? <==> memory && |input| * 3 + 4 <= SIZE_MAX
    ensures r.Some? ==> r.value == Converted(input) && |r.value| <= |input| * 3 + 4
  {
    if |input| > (SIZE_MAX - 4) / 3 || !memory {
      return None;
    }
    var cap, o: nat := |input| * 3 + 4, 0;
    var out := new byte[cap];
    var i := 0;
    assert input[0..] == input;
    while i + 1 < |input|
      invariant 0 <= i <= |input| && o <= 3 * i && o <= cap
      invariant out[..o] + Converted(input[i..]) == Converted(input)
    {
      ConvertedStep(input, i);
      hide Converted, EncodeOne;
      var d := Next(input, i);
      EncodedSize(d.c);
      ghost var before := out[..o];
      o := PutCodePoint(out, o, d.c);
      Assoc(before, EncodeOne(d.c), Converted(input[i + d.n..]));
      i := i + d.n;
    }
    assert Converted(input[i..]) == [];
    assert out[..o] + [] == out[..o];
    r := Some(out[..o]);
  }

  lemma {:induction false} EncodedSize(c: CodePoint)
    ensures |EncodeOne(c)| <= 4 && (c < 0x10000 ==> |EncodeOne(c)| <= 3)
  {
  }

  /** The output decodes to the input's code points, and those restore every whole unit. */
  lemma {:induction false} ConversionLossless(input: Bytes)
    ensures DecodeUtf8(Converted(input)) == Some(CodePoints(Units(input)))
    ensures EncodeUtf16(DecodeUtf8(Converted(input)).value) == Units(input)
  {
    Utf8RoundTrip(CodePoints(Units(input)));
    Utf16RoundTrip(Units(input));
  }

  // ---- the forms of RFC 3629 and RFC 2781 --------------------------------

  /** The length of a UTF-8 form, and which bytes can stand where. */
  lemma {:induction false} Utf8Form(c: CodePoint)
    ensures var b := EncodeOne(c);
            && |b| == (if c < 0x80 then 1 else if c < 0x800 then 2 else if c < 0x10000 then 3 else 4)
            && (|b| == 1 ==> b[0] == c) && (|b| == 2 ==> 0xC2 <= b[0] <= 0xDF)
            && (|b| == 3 ==> 0xE0 <= b[0] <= 0xEF) && (|b| == 4 ==> 0xF0 <= b[0] <= 0xF4)
            && forall i :: 1 <= i < |b| ==> 0x80 <= b[i] <= 0xBF
  {
  }

  /** Known forms: a cent, a euro, a Gothic letter, a lone surrogate, and a surrogate pair. */
  lemma {:induction false} KnownForms()
    ensures EncodeOne(0xA2) == [0xC2, 0xA2] && EncodeOne(0x20AC) == [0xE2, 0x82, 0xAC]
    ensures EncodeOne(0x10348) == [0xF0, 0x90, 0x8D, 0x88] && EncodeOne(0xD800) == [0xED, 0xA0, 0x80]
    ensures Combine(0xD800, 0xDF48) == 0x10348 && Combine(0xDBFF, 0xDFFF) == 0x10FFFF
  {
  }
}
