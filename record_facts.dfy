/**
 * What `ResourceHead::new`, `to_bytes` and `from` guarantee: fixed-width
 * fields, a constant encoded length of 418 bytes within the budgets, the
 * round trip through bincode, and the position of the magic in an encoded header.
 */
module RecordFacts {
  import opened Types
  import Text
  import Numbers
  import opened Record

  /** The encoded length of a header built within budget: 24+13+72+263+21+21+4. */
  const HEAD_LEN: nat := 418

  /** Every field fits bincode's `u64` length prefix. */
  predicate Encodable(h: ResourceHead)
  {
    && |h.head| < Numbers.Pow(256, LENGTH_PREFIX)
    && Text.ByteLen(h.version) < Numbers.Pow(256, LENGTH_PREFIX)
    && Text.ByteLen(h.id) < Numbers.Pow(256, LENGTH_PREFIX)
    && Text.ByteLen(h.name) < Numbers.Pow(256, LENGTH_PREFIX)
    && Text.ByteLen(h.length) < Numbers.Pow(256, LENGTH_PREFIX)
    && Text.ByteLen(h.size) < Numbers.Pow(256, LENGTH_PREFIX)
  }

  // ------------------------------------------------------------- field level

  /** A length-prefixed byte string at `pos` decodes to itself, and decoding resumes after it. */
  lemma DecodeBytesAt(data: seq<Byte>, pos: nat, b: seq<Byte>, tail: seq<Byte>)
    requires |b| < Numbers.Pow(256, LENGTH_PREFIX)
    requires pos <= |data| && data[pos..] == EncodeBytes(b) + tail
    ensures DecodeBytes(data, pos) == Some((b, pos + LENGTH_PREFIX + |b|))
    ensures data[pos + LENGTH_PREFIX + |b|..] == tail
  {
    var e := EncodeBytes(b);
    assert data[pos..pos + LENGTH_PREFIX] == e[..LENGTH_PREFIX];
    assert data[pos + LENGTH_PREFIX..pos + LENGTH_PREFIX + |b|] == e[LENGTH_PREFIX..];
    assert data[pos + LENGTH_PREFIX + |b|..] == data[pos..][|e|..];
    Numbers.LeRoundTrip(|b|, LENGTH_PREFIX);
  }

  lemma DecodeStrAt(data: seq<Byte>, pos: nat, s: string, next: nat, tail: seq<Byte>)
    requires Text.ByteLen(s) < Numbers.Pow(256, LENGTH_PREFIX) && next == pos + |EncodeStr(s)|
    requires pos <= |data| && data[pos..] == EncodeStr(s) + tail
    ensures DecodeStr(data, pos) == Some((s, next))
    ensures next <= |data| && data[next..] == tail
  {
    var b := Text.Encode(s);
    assert EncodeStr(s) == EncodeBytes(b) && next == pos + LENGTH_PREFIX + |b|;
    DecodeBytesAt(data, pos, b, tail);
    Text.DecodeEncode(s);
    DecodeStrOf(data, pos, b, s, next);
  }

  /** `DecodeStr` is `DecodeBytes` followed by `Decode`. */
  lemma DecodeStrOf(data: seq<Byte>, pos: nat, b: seq<Byte>, s: string, next: nat)
    requires DecodeBytes(data, pos) == Some((b, next)) && Text.Decode(b) == Some(s)
    ensures DecodeStr(data, pos) == Some((s, next))
  {
  }

  lemma DecodeModeAt(data: seq<Byte>, pos: nat, m: CompressMode, tail: seq<Byte>)
    requires pos <= |data| && data[pos..] == Numbers.LeBytes(VariantIndex(m), VARIANT_WIDTH) + tail
    ensures DecodeMode(data, pos) == Some(m)
  {
    assert data[pos..pos + VARIANT_WIDTH] == data[pos..][..VARIANT_WIDTH];
    Numbers.LeRoundTrip(VariantIndex(m), VARIANT_WIDTH);
  }

  // -------------------------------------------------------------- round trip

  /** The offsets at which `from` finds each field of an encoded header. */
  function FieldEnd(h: ResourceHead, k: nat): nat
    requires k <= 6
  {
    if k == 0 then 0
    else if k == 1 then LENGTH_PREFIX + |h.head|
    else FieldEnd(h, k - 1) + |EncodeStr(FieldAt(h, k - 1))|
  }

  /** The `k`-th string field (1 to 5: version, id, name, length, size). */
  function FieldAt(h: ResourceHead, k: nat): string
  {
    if k == 1 then h.version else if k == 2 then h.id else if k == 3 then h.name
    else if k == 4 then h.length else h.size
  }

  /** What follows the `k`-th field of an encoded header. */
  function After(h: ResourceHead, k: nat): seq<Byte>
    requires 1 <= k <= 6
    decreases 6 - k
  {
    if k == 6 then Numbers.LeBytes(VariantIndex(h.compress), VARIANT_WIDTH)
    else EncodeStr(FieldAt(h, k)) + After(h, k + 1)
  }

  lemma StringFieldAt(h: ResourceHead, data: seq<Byte>, rest: seq<Byte>, k: nat)
    requires 1 <= k <= 5 && Text.ByteLen(FieldAt(h, k)) < Numbers.Pow(256, LENGTH_PREFIX)
    requires FieldEnd(h, k) <= |data| && data[FieldEnd(h, k)..] == After(h, k) + rest
    ensures DecodeStr(data, FieldEnd(h, k)) == Some((FieldAt(h, k), FieldEnd(h, k + 1)))
    ensures FieldEnd(h, k + 1) <= |data| && data[FieldEnd(h, k + 1)..] == After(h, k + 1) + rest
  {
    var at, s, next, tail := FieldEnd(h, k), FieldAt(h, k), FieldEnd(h, k + 1), After(h, k + 1) + rest;
    FieldStep(h, k);
    assert data[at..] == EncodeStr(s) + tail;
    DecodeStrAt(data, at, s, next, tail);
  }

  /** The `k`-th string field is followed by the rest of the header, and ends where the next begins. */
  lemma FieldStep(h: ResourceHead, k: nat)
    requires 1 <= k <= 5
    ensures After(h, k) == EncodeStr(FieldAt(h, k)) + After(h, k + 1)
    ensures FieldEnd(h, k + 1) == FieldEnd(h, k) + |EncodeStr(FieldAt(h, k))|
  {
  }

  /**
   * `from(to_bytes(h))` reproduces `h`, whatever follows the encoding: the
   * scanner decodes a window that may hold more than the header.
   */
  lemma FromToBytes(h: ResourceHead, rest: seq<Byte>)
    requires Encodable(h)
    ensures From(ToBytes(h) + rest) == Some(h)
  {
    var data := ToBytes(h) + rest;
    FirstFields(h, rest);
    LastFields(h, data, rest);
    FromFields(data, h, FieldEnd(h, 1), FieldEnd(h, 2), FieldEnd(h, 3), FieldEnd(h, 4), FieldEnd(h, 5), FieldEnd(h, 6));
  }

  /** `head`, `Version` and `Id` of an encoded header decode, and the rest follows them. */
  lemma FirstFields(h: ResourceHead, rest: seq<Byte>)
    requires Encodable(h)
    ensures var data := ToBytes(h) + rest;
      && DecodeBytes(data, 0) == Some((h.head, FieldEnd(h, 1)))
      && DecodeStr(data, FieldEnd(h, 1)) == Some((h.version, FieldEnd(h, 2)))
      && DecodeStr(data, FieldEnd(h, 2)) == Some((h.id, FieldEnd(h, 3)))
      && FieldEnd(h, 3) <= |data| && data[FieldEnd(h, 3)..] == After(h, 3) + rest
  {
    var data := ToBytes(h) + rest;
    HeadFieldAt(h, rest);
    StringFieldAt(h, data, rest, 1);
    StringFieldAt(h, data, rest, 2);
  }

  /** `Name`, `Length`, `Size` and `Compress` decode where the encoding of `Name` starts. */
  lemma LastFields(h: ResourceHead, data: seq<Byte>, rest: seq<Byte>)
    requires Encodable(h)
    requires FieldEnd(h, 3) <= |data| && data[FieldEnd(h, 3)..] == After(h, 3) + rest
    ensures DecodeStr(data, FieldEnd(h, 3)) == Some((h.name, FieldEnd(h, 4)))
    ensures DecodeStr(data, FieldEnd(h, 4)) == Some((h.length, FieldEnd(h, 5)))
    ensures DecodeStr(data, FieldEnd(h, 5)) == Some((h.size, FieldEnd(h, 6)))
    ensures DecodeMode(data, FieldEnd(h, 6)) == Some(h.compress)
  {
    StringFieldAt(h, data, rest, 3);
    StringFieldAt(h, data, rest, 4);
    SizeFieldAt(h, data, rest);
  }

  /** `Size` and `Compress` decode where the encoding of `Size` starts. */
  lemma SizeFieldAt(h: ResourceHead, data: seq<Byte>, rest: seq<Byte>)
    requires Text.ByteLen(h.size) < Numbers.Pow(256, LENGTH_PREFIX)
    requires FieldEnd(h, 5) <= |data| && data[FieldEnd(h, 5)..] == After(h, 5) + rest
    ensures DecodeStr(data, FieldEnd(h, 5)) == Some((h.size, FieldEnd(h, 6)))
    ensures DecodeMode(data, FieldEnd(h, 6)) == Some(h.compress)
  {
    StringFieldAt(h, data, rest, 5);
    DecodeModeAt(data, FieldEnd(h, 6), h.compress, rest);
  }

  /** The first field of an encoded header, `head`, decodes, and the other fields follow it. */
  lemma HeadFieldAt(h: ResourceHead, rest: seq<Byte>)
    requires |h.head| < Numbers.Pow(256, LENGTH_PREFIX)
    ensures var data := ToBytes(h) + rest;
      && DecodeBytes(data, 0) == Some((h.head, FieldEnd(h, 1)))
      && FieldEnd(h, 1) <= |data| && data[FieldEnd(h, 1)..] == After(h, 1) + rest
  {
    var data := ToBytes(h) + rest;
    assert After(h, 5) == EncodeStr(h.size) + After(h, 6);
    assert After(h, 3) == EncodeStr(h.name) + (EncodeStr(h.length) + After(h, 5));
    assert After(h, 1) == EncodeStr(h.version) + (EncodeStr(h.id) + After(h, 3));
    assert data[0..] == EncodeBytes(h.head) + (After(h, 1) + rest);
    DecodeBytesAt(data, 0, h.head, After(h, 1) + rest);
  }

  /** `from` succeeds with `h` when each field decodes in turn to `h`'s. */
  lemma FromFields(data: seq<Byte>, h: ResourceHead, p1: nat, p2: nat, p3: nat, p4: nat, p5: nat, p6: nat)
    requires DecodeBytes(data, 0) == Some((h.head, p1))
    requires DecodeStr(data, p1) == Some((h.version, p2)) && DecodeStr(data, p2) == Some((h.id, p3))
    requires DecodeStr(data, p3) == Some((h.name, p4)) && DecodeStr(data, p4) == Some((h.length, p5))
    requires DecodeStr(data, p5) == Some((h.size, p6)) && DecodeMode(data, p6) == Some(h.compress)
    ensures From(data) == Some(h)
  {
  }

  lemma DecodedBytes(data: seq<Byte>, pos: nat)
    requires DecodeBytes(data, pos).Some?
    ensures data[pos..DecodeBytes(data, pos).value.1] == EncodeBytes(DecodeBytes(data, pos).value.0)
  {
    var prefix := data[pos..pos + LENGTH_PREFIX];
    Numbers.LeBytesValue(prefix);
  }

  lemma DecodedStr(data: seq<Byte>, pos: nat)
    requires DecodeStr(data, pos).Some?
    ensures data[pos..DecodeStr(data, pos).value.1] == EncodeStr(DecodeStr(data, pos).value.0)
  {
    DecodedBytes(data, pos);
    Text.EncodeDecode(DecodeBytes(data, pos).value.0);
  }

  lemma DecodedMode(data: seq<Byte>, pos: nat)
    requires DecodeMode(data, pos).Some?
    ensures pos + VARIANT_WIDTH <= |data|
    ensures data[pos..pos + VARIANT_WIDTH] == Numbers.LeBytes(VariantIndex(DecodeMode(data, pos).value), VARIANT_WIDTH)
  {
    Numbers.LeBytesValue(data[pos..pos + VARIANT_WIDTH]);
  }

  /** Two adjacent slices join; one call per field keeps `FromPrefix` small. */
  lemma Adjacent(data: seq<Byte>, a: nat, b: nat, c: nat)
    requires a <= b <= c <= |data|
    ensures data[a..b] + data[b..c] == data[a..c]
  {
  }

  /**
   * Soundness of `from`: a header it decodes is encoded by the bytes it read, so
   * `to_bytes` of the result is a prefix of the input.
   */
  lemma FromPrefix(data: seq<Byte>)
    requires From(data).Some?
    ensures |ToBytes(From(data).value)| <= |data|
    ensures data[..|ToBytes(From(data).value)|] == ToBytes(From(data).value)
  {
    var h := From(data).value;
    var (_, p1) := DecodeBytes(data, 0).value;
    var (_, p2) := DecodeStr(data, p1).value;
    var (_, p3) := DecodeStr(data, p2).value;
    var (_, p4) := DecodeStr(data, p3).value;
    var (_, p5) := DecodeStr(data, p4).value;
    var (_, p6) := DecodeStr(data, p5).value;
    var p7 := p6 + VARIANT_WIDTH;
    DecodedBytes(data, 0);
    DecodedStr(data, p1);
    DecodedStr(data, p2);
    DecodedStr(data, p3);
    DecodedStr(data, p4);
    DecodedStr(data, p5);
    DecodedMode(data, p6);
    Adjacent(data, p5, p6, p7);
    Adjacent(data, p4, p5, p7);
    Adjacent(data, p3, p4, p7);
    Adjacent(data, p2, p3, p7);
    Adjacent(data, p1, p2, p7);
    Adjacent(data, 0, p1, p7);
    assert data[0..p7] == ToBytes(h);
  }

  /** `to_bytes` is injective on encodable headers, so a decoded header is unambiguous. */
  lemma ToBytesInjective(h1: ResourceHead, h2: ResourceHead)
    requires Encodable(h1) && Encodable(h2) && ToBytes(h1) == ToBytes(h2)
    ensures h1 == h2
  {
    FromToBytes(h1, []);
    FromToBytes(h2, []);
    assert ToBytes(h1) + [] == ToBytes(h2) + [];
  }

  // ---------------------------------------------------------------- lengths

  lemma {:induction false} AsciiDigitsBytes(s: string)
    requires Numbers.AllDigits(s)
    ensures Text.ByteLen(s) == |s|
  {
    if s != [] {
      AsciiDigitsBytes(s[1..]);
    }
  }

  /** A zero-padded decimal field: its byte length is `max(width, digits)`, and it parses back. */
  lemma NumberField(n: nat)
    ensures var f := Text.PadLeft(Numbers.ToDecimal(n), '0', NUMBER_WIDTH);
      && Numbers.AllDigits(f)
      && Text.ByteLen(f) == |f|
      && (|f| == NUMBER_WIDTH <==> n < Numbers.Pow(10, NUMBER_WIDTH))
      && (n <= U64_MAX ==> Numbers.ParseUnsigned(f, U64_MAX) == Some(n))
  {
    NumberDigits(n);
    if n <= U64_MAX {
      Numbers.ParsePadded(n, NUMBER_WIDTH, U64_MAX);
    }
  }

  /** A zero-padded decimal field is ASCII digits, `NUMBER_WIDTH` of them unless `n` needs more. */
  lemma NumberDigits(n: nat)
    ensures var f := Text.PadLeft(Numbers.ToDecimal(n), '0', NUMBER_WIDTH);
      && Numbers.AllDigits(f)
      && Text.ByteLen(f) == |f|
      && (|f| == NUMBER_WIDTH <==> n < Numbers.Pow(10, NUMBER_WIDTH))
  {
    NumberWidth();
    var d := Numbers.ToDecimal(n);
    var f := Text.PadLeft(d, '0', NUMBER_WIDTH);
    Numbers.ToDecimalLength(n, NUMBER_WIDTH);
    if |d| < NUMBER_WIDTH {
      Numbers.LeadingZeros(NUMBER_WIDTH - |d|, d);
    }
    AsciiDigitsBytes(f);
  }

  lemma VersionBytes()
    ensures Text.ByteLen(VERSION) == 5
  {
    assert VERSION[1..] == ".0.0";
    assert VERSION[2..] == "0.0";
    assert VERSION[3..] == ".0";
    assert VERSION[4..] == "0";
    assert VERSION[5..] == "";
  }

  /** `{:^w$}` with `w` chosen to fill `budget` bytes, as `new` pads `Id` and `Name`. */
  function Centered(s: string, budget: nat): string
    requires Text.ByteLen(s) <= budget
  {
    Text.PadCenter(s, budget - Text.ByteLen(s) + |s|)
  }

  /**
   * A centred field is exactly `budget` UTF-8 bytes, the spaces split floor/ceil
   * around the value, and `trim` gives the value back when it had no surrounding
   * whitespace.
   */
  lemma CenteredField(s: string, budget: nat)
    requires Text.ByteLen(s) <= budget
    ensures Text.ByteLen(Centered(s, budget)) == budget
    ensures Centered(s, budget) == Text.Repeat(' ', (budget - Text.ByteLen(s)) / 2) + s
                                   + Text.Repeat(' ', (budget - Text.ByteLen(s) + 1) / 2)
    ensures Text.Trimmed(s) ==> Text.Trim(Centered(s, budget)) == s
  {
    Text.PadCenterBytes(s, budget);
    if Text.Trimmed(s) {
      CenteredTrim(s, budget);
    }
  }

  /** `trim` takes a centred value without surrounding whitespace back out. */
  lemma CenteredTrim(s: string, budget: nat)
    requires Text.ByteLen(s) <= budget && Text.Trimmed(s)
    ensures Text.Trim(Centered(s, budget)) == s
  {
    var w := budget - Text.ByteLen(s) + |s|;
    var p := Centered(s, budget);
    assert p == Text.PadCenter(s, w);
    Text.TrimPadCenter(s, w);
  }

  /** `new` centres `Id` in 64 bytes and `Name` in 255. */
  lemma NewPadding(id: string, length: nat, size: nat, name: string, mode: CompressMode)
    requires WithinBudget(id, name)
    ensures New(id, length, size, name, mode).id == Centered(id, MAX_ID_LENGTH)
    ensures New(id, length, size, name, mode).name == Centered(name, MAX_NAME_LENGTH)
    ensures Text.ByteLen(New(id, length, size, name, mode).id) == MAX_ID_LENGTH
    ensures Text.ByteLen(New(id, length, size, name, mode).name) == MAX_NAME_LENGTH
  {
    CenteredField(id, MAX_ID_LENGTH);
    CenteredField(name, MAX_NAME_LENGTH);
  }

  /**
   * `Length` and `Size` are zero-left-padded decimals that parse back (after `trim`
   * for `Size`, as export reads it); 13 digits wide unless the value needs more.
   */
  lemma NewNumbers(id: string, length: nat, size: nat, name: string, mode: CompressMode)
    requires WithinBudget(id, name) && length <= U64_MAX && size <= U64_MAX
    ensures var h := New(id, length, size, name, mode);
      && Numbers.ParseUnsigned(h.length, U64_MAX) == Some(length)
      && Numbers.ParseUnsigned(Text.Trim(h.size), U64_MAX) == Some(size)
      && (|h.length| == NUMBER_WIDTH <==> length < Numbers.Pow(10, NUMBER_WIDTH))
      && (|h.size| == NUMBER_WIDTH <==> size < Numbers.Pow(10, NUMBER_WIDTH))
  {
    NumberField(length);
    NumberField(size);
    var f := New(id, length, size, name, mode).size;
    DigitsTrimmed(f);
  }

  lemma DigitsTrimmed(s: string)
    requires Numbers.AllDigits(s)
    ensures Text.Trim(s) == s
  {
    if s != [] {
      assert !Text.IsWhitespace(s[0]);
    }
    assert Text.TrimStart(s) == s;
    if s != [] {
      assert !Text.IsWhitespace(s[|s| - 1]);
    }
  }

  /**
   * The encoded length of a header from `new` is the constant `HEAD_LEN` exactly
   * when both numbers fit 13 digits; otherwise the header is longer.
   */
  lemma NewLength(id: string, length: nat, size: nat, name: string, mode: CompressMode)
    requires WithinBudget(id, name)
    ensures GetLen(New(id, length, size, name, mode)) >= HEAD_LEN
    ensures GetLen(New(id, length, size, name, mode)) == HEAD_LEN <==>
      length < Numbers.Pow(10, NUMBER_WIDTH) && size < Numbers.Pow(10, NUMBER_WIDTH)
  {
    var h := New(id, length, size, name, mode);
    NewPadding(id, length, size, name, mode);
    NumberField(length);
    NumberField(size);
    NumberWidth();
    VersionBytes();
    assert |ToBytes(h)| == 24 + 13 + 72 + 263 + (8 + |h.length|) + (8 + |h.size|) + 4;
  }

  /** `getLen()` of the default header is `HEAD_LEN`. */
  lemma DefaultLength()
    ensures GetLen(Default()) == HEAD_LEN
  {
    NumberWidth();
    NewLength("", 0, 0, "", CompressMode.None);
  }

  /** Every header `new` builds (with `u64` sizes) decodes back from its encoding. */
  lemma NewEncodable(id: string, length: nat, size: nat, name: string, mode: CompressMode)
    requires WithinBudget(id, name) && length <= U64_MAX && size <= U64_MAX
    ensures Encodable(New(id, length, size, name, mode))
  {
    NewPadding(id, length, size, name, mode);
    NumberField(length);
    NumberField(size);
    NumberWidth();
    VersionBytes();
    DecimalShort(length);
    DecimalShort(size);
    assert Numbers.Pow(256, LENGTH_PREFIX) == U64_MAX + 1;
  }

  lemma {:induction false} DecimalShort(n: nat)
    ensures |Numbers.ToDecimal(n)| <= n || n == 0
  {
    if n >= 10 {
      DecimalShort(n / 10);
    }
  }

  /**
   * In an encoded header the 16 magic bytes start at `MAGIC_OFFSET` (8), after
   * the `u64` length prefix of `Head`.
   */
  lemma MagicInHeader(h: ResourceHead)
    requires h.head == MAGIC
    ensures |ToBytes(h)| >= MAGIC_OFFSET + |MAGIC|
    ensures ToBytes(h)[MAGIC_OFFSET..MAGIC_OFFSET + |MAGIC|] == MAGIC
  {
    var e0 := EncodeBytes(h.head);
    assert ToBytes(h) == e0 + (ToBytes(h)[|e0|..]);
  }
}
