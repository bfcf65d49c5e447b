/**
 * Rust `str`/`String` behaviour that the record header relies on: UTF-8 encoding
 * (`as_bytes`, `len`), UTF-8 validation (`String::from_utf8`), `char::is_whitespace`,
 * `str::trim`, and the padding done by `format!` for `{:^w$}` and `{:0>w$}`.
 */
module Text {
  import opened Types

  // ---------------------------------------------------------------- UTF-8

  /** Continuation byte 10xxxxxx. */
  predicate IsCont(b: Byte) { 0x80 <= b <= 0xBF }

  /** The UTF-8 encoding of one scalar value. */
  function EncodeChar(c: char): (r: seq<Byte>)
    ensures 1 <= |r| <= 4
  {
    var cp := c as int;
    if cp < 0x80 then [cp]
    else if cp < 0x800 then [0xC0 + cp / 64, 0x80 + cp % 64]
    else if cp < 0x1_0000 then [0xE0 + cp / 4096, 0x80 + (cp / 64) % 64, 0x80 + cp % 64]
    else [0xF0 + cp / 262144, 0x80 + (cp / 4096) % 64, 0x80 + (cp / 64) % 64, 0x80 + cp % 64]
  }

  /** `s.as_bytes()`. */
  function Encode(s: string): seq<Byte>
  {
    if s == [] then [] else EncodeChar(s[0]) + Encode(s[1..])
  }

  /** `s.len()`: the number of bytes of the UTF-8 encoding. */
  function ByteLen(s: string): nat
  {
    |Encode(s)|
  }

  /**
   * Decodes the first scalar value of `b`, with the number of bytes it takes,
   * accepting exactly the well-formed sequences (no overlong forms, no surrogates,
   * nothing above U+10FFFF), as `std::str::from_utf8` does.
   */
  function DecodeChar(b: seq<Byte>): (r: Option<(char, nat)>)
    requires |b| > 0
    ensures r.Some? ==> 1 <= r.value.1 <= |b| && r.value.1 <= 4
  {
    var b0: int := b[0];
    if b0 < 0x80 then Some((b0 as char, 1))
    else if 0xC2 <= b0 <= 0xDF then
      if |b| >= 2 && IsCont(b[1]) then
        var b1: int := b[1];
        Some((((b0 - 0xC0) * 64 + (b1 - 0x80)) as char, 2))
      else None
    else if 0xE0 <= b0 <= 0xEF then
      var lo := if b0 == 0xE0 then 0xA0 else 0x80;
      var hi := if b0 == 0xED then 0x9F else 0xBF;
      if |b| >= 3 && lo <= b[1] <= hi && IsCont(b[2]) then
        var b1: int, b2: int := b[1], b[2];
        Some((((b0 - 0xE0) * 4096 + (b1 - 0x80) * 64 + (b2 - 0x80)) as char, 3))
      else None
    else if 0xF0 <= b0 <= 0xF4 then
      var lo := if b0 == 0xF0 then 0x90 else 0x80;
      var hi := if b0 == 0xF4 then 0x8F else 0xBF;
      if |b| >= 4 && lo <= b[1] <= hi && IsCont(b[2]) && IsCont(b[3]) then
        var b1: int, b2: int, b3: int := b[1], b[2], b[3];
        Some((((b0 - 0xF0) * 262144 + (b1 - 0x80) * 4096 + (b2 - 0x80) * 64 + (b3 - 0x80)) as char, 4))
      else None
    else None
  }

  /** `String::from_utf8`: `None` when `b` is not well-formed UTF-8. */
  function Decode(b: seq<Byte>): Option<string>
    decreases |b|
  {
    if b == [] then Some([])
    else match DecodeChar(b)
      case None => None
      case Some((c, k)) =>
        match Decode(b[k..])
        case None => None
        case Some(s) => Some([c] + s)
  }

  lemma {:induction false} EncodeAppend(s: string, t: string)
    ensures Encode(s + t) == Encode(s) + Encode(t)
  {
    if s != [] {
      assert (s + t)[0] == s[0] && (s + t)[1..] == s[1..] + t;
      EncodeAppend(s[1..], t);
    } else {
      assert s + t == t;
    }
  }

  lemma DecodeEncodeChar(c: char, rest: seq<Byte>)
    ensures DecodeChar(EncodeChar(c) + rest) == Some((c, |EncodeChar(c)|))
  {
    var cp := c as int;
    if cp < 0x80 {
    } else if cp < 0x800 {
      DecodeEncode2(c, rest);
    } else if cp < 0x1_0000 {
      DecodeEncode3(c, rest);
    } else {
      DecodeEncode4(c, rest);
    }
  }

  lemma DecodeEncode2(c: char, rest: seq<Byte>)
    requires 0x80 <= c as int < 0x800
    ensures DecodeChar(EncodeChar(c) + rest) == Some((c, 2))
  {
    var cp := c as int;
    Split2(cp);
    var b := EncodeChar(c) + rest;
    assert b[0] == 0xC0 + cp / 64 && b[1] == 0x80 + cp % 64;
  }

  lemma DecodeEncode3(c: char, rest: seq<Byte>)
    requires 0x800 <= c as int < 0x1_0000
    ensures DecodeChar(EncodeChar(c) + rest) == Some((c, 3))
  {
    var cp := c as int;
    Split3(cp);
    var b := EncodeChar(c) + rest;
    assert b[0] == 0xE0 + cp / 4096 && b[1] == 0x80 + (cp / 64) % 64 && b[2] == 0x80 + cp % 64;
  }

  lemma DecodeEncode4(c: char, rest: seq<Byte>)
    requires 0x1_0000 <= c as int
    ensures DecodeChar(EncodeChar(c) + rest) == Some((c, 4))
  {
    var cp := c as int;
    Split4(cp);
    var b := EncodeChar(c) + rest;
    assert b[0] == 0xF0 + cp / 262144 && b[1] == 0x80 + (cp / 4096) % 64;
    assert b[2] == 0x80 + (cp / 64) % 64 && b[3] == 0x80 + cp % 64;
  }

  /** The base-64 digits `EncodeChar` takes apart put `cp` back together. */
  lemma Split2(cp: int)
    requires 0x80 <= cp < 0x800
    ensures cp == (cp / 64) * 64 + cp % 64 && 2 <= cp / 64 < 32
  {
  }

  lemma Split3(cp: int)
    requires 0x800 <= cp < 0x1_0000
    ensures cp == (cp / 4096) * 4096 + ((cp / 64) % 64) * 64 + cp % 64 && cp / 4096 < 16
    ensures cp / 4096 == 0 ==> (cp / 64) % 64 >= 0x20
  {
    var q := cp / 64;
    assert cp == q * 64 + cp % 64;
    assert q == (q / 64) * 64 + q % 64;
    assert q / 64 == cp / 4096;
  }

  lemma Split4(cp: int)
    requires 0x1_0000 <= cp < 0x11_0000
    ensures cp == (cp / 262144) * 262144 + ((cp / 4096) % 64) * 4096 + ((cp / 64) % 64) * 64 + cp % 64
    ensures cp / 262144 <= 4 && (cp / 262144 == 0 ==> (cp / 4096) % 64 >= 0x10)
    ensures cp / 262144 == 4 ==> (cp / 4096) % 64 < 0x10
  {
    var q := cp / 64;
    var p := q / 64;
    assert cp == q * 64 + cp % 64;
    assert q == p * 64 + q % 64;
    assert p == (p / 64) * 64 + p % 64;
    assert p == cp / 4096 && p / 64 == cp / 262144;
  }

  /** The value `DecodeChar` assembles has the bytes it came from as its base-64 digits. */
  lemma Join2(b0: int, b1: int)
    requires 0 <= b0 - 0xC0 && 0 <= b1 - 0x80 < 64
    ensures var cp := (b0 - 0xC0) * 64 + (b1 - 0x80);
      cp / 64 == b0 - 0xC0 && cp % 64 == b1 - 0x80
  {
  }

  lemma Join3(b0: int, b1: int, b2: int)
    requires 0 <= b0 - 0xE0 && 0 <= b1 - 0x80 < 64 && 0 <= b2 - 0x80 < 64
    ensures var cp := (b0 - 0xE0) * 4096 + (b1 - 0x80) * 64 + (b2 - 0x80);
      cp / 4096 == b0 - 0xE0 && (cp / 64) % 64 == b1 - 0x80 && cp % 64 == b2 - 0x80
  {
    var cp := (b0 - 0xE0) * 4096 + (b1 - 0x80) * 64 + (b2 - 0x80);
    assert cp / 64 == (b0 - 0xE0) * 64 + (b1 - 0x80);
  }

  lemma Join4(b0: int, b1: int, b2: int, b3: int)
    requires 0 <= b0 - 0xF0 && 0 <= b1 - 0x80 < 64 && 0 <= b2 - 0x80 < 64 && 0 <= b3 - 0x80 < 64
    ensures var cp := (b0 - 0xF0) * 262144 + (b1 - 0x80) * 4096 + (b2 - 0x80) * 64 + (b3 - 0x80);
      cp / 262144 == b0 - 0xF0 && (cp / 4096) % 64 == b1 - 0x80 && (cp / 64) % 64 == b2 - 0x80 && cp % 64 == b3 - 0x80
  {
    var cp := (b0 - 0xF0) * 262144 + (b1 - 0x80) * 4096 + (b2 - 0x80) * 64 + (b3 - 0x80);
    assert cp / 64 == (b0 - 0xF0) * 4096 + (b1 - 0x80) * 64 + (b2 - 0x80);
    assert cp / 4096 == (b0 - 0xF0) * 64 + (b1 - 0x80);
  }

  lemma EncodeDecodeChar(b: seq<Byte>)
    requires |b| > 0 && DecodeChar(b).Some?
    ensures EncodeChar(DecodeChar(b).value.0) == b[..DecodeChar(b).value.1]
  {
    var b0: int := b[0];
    if b0 < 0x80 {
    } else if b0 <= 0xDF {
      Join2(b0, b[1]);
    } else if b0 <= 0xEF {
      Join3(b0, b[1], b[2]);
    } else {
      Join4(b0, b[1], b[2], b[3]);
    }
  }

  /** Decoding the encoding of any string gives the string back. */
  lemma {:induction false} DecodeEncode(s: string)
    ensures Decode(Encode(s)) == Some(s)
  {
    if s != [] {
      DecodeEncodeChar(s[0], Encode(s[1..]));
      assert (EncodeChar(s[0]) + Encode(s[1..]))[|EncodeChar(s[0])|..] == Encode(s[1..]);
      DecodeEncode(s[1..]);
      assert [s[0]] + s[1..] == s;
    }
  }

  /** Whatever decodes successfully is the encoding of what it decodes to. */
  lemma {:induction false} EncodeDecode(b: seq<Byte>)
    requires Decode(b).Some?
    ensures Encode(Decode(b).value) == b
    decreases |b|
  {
    if b != [] {
      var c, k, rest := DecodeStep(b);
      EncodeDecodeChar(b);
      EncodeDecode(b[k..]);
      EncodeJoin(b, k, c, rest);
    }
  }

  /** `Decode` of a non-empty sequence: its first character, then the decoding of the rest. */
  lemma DecodeStep(b: seq<Byte>) returns (c: char, k: nat, rest: string)
    requires b != [] && Decode(b).Some?
    ensures DecodeChar(b) == Some((c, k)) && k <= |b|
    ensures Decode(b[k..]) == Some(rest) && Decode(b) == Some([c] + rest)
  {
    c, k := DecodeChar(b).value.0, DecodeChar(b).value.1;
    rest := Decode(b[k..]).value;
  }

  lemma EncodeJoin(b: seq<Byte>, k: nat, c: char, rest: string)
    requires k <= |b| && EncodeChar(c) == b[..k] && Encode(rest) == b[k..]
    ensures Encode([c] + rest) == b
  {
    EncodeCons(c, rest);
    assert b == b[..k] + b[k..];
  }

  lemma EncodeCons(c: char, s: string)
    ensures Encode([c] + s) == EncodeChar(c) + Encode(s)
  {
    assert ([c] + s)[0] == c && ([c] + s)[1..] == s;
  }

  // ------------------------------------------------------------ whitespace

  /** `char::is_whitespace`: the Unicode White_Space property. */
  predicate IsWhitespace(c: char)
  {
    ('\t' <= c <= '\r') || c == ' ' || c == '\U{0085}' || c == '\U{00A0}' || c == '\U{1680}'
    || ('\U{2000}' <= c <= '\U{200A}') || c == '\U{2028}' || c == '\U{2029}' || c == '\U{202F}'
    || c == '\U{205F}' || c == '\U{3000}'
  }

  function TrimStart(s: string): (r: string)
    ensures |r| <= |s| && r == s[|s| - |r|..]
    ensures r == [] || !IsWhitespace(r[0])
    ensures forall i :: 0 <= i < |s| - |r| ==> IsWhitespace(s[i])
  {
    if s != [] && IsWhitespace(s[0]) then TrimStart(s[1..]) else s
  }

  function TrimEnd(s: string): (r: string)
    ensures |r| <= |s| && r == s[..|r|]
    ensures r == [] || !IsWhitespace(r[|r| - 1])
    ensures forall i :: |r| <= i < |s| ==> IsWhitespace(s[i])
  {
    if s != [] && IsWhitespace(s[|s| - 1]) then TrimEnd(s[..|s| - 1]) else s
  }

  /** `str::trim`. */
  function Trim(s: string): string
  {
    TrimEnd(TrimStart(s))
  }

  /** `s` has no leading and no trailing whitespace, so `trim` leaves it alone. */
  predicate Trimmed(s: string)
  {
    s == [] || (!IsWhitespace(s[0]) && !IsWhitespace(s[|s| - 1]))
  }

  // --------------------------------------------------------------- padding

  function Repeat(c: char, k: nat): (r: string)
    ensures |r| == k && forall i :: 0 <= i < k ==> r[i] == c
  {
    if k == 0 then [] else [c] + Repeat(c, k - 1)
  }

  /**
   * `format!("{:^w$}", s)`: when `s` has fewer than `w` chars it is centred between
   * spaces, the smaller half (`pad / 2`) on the left; otherwise it is unchanged.
   */
  function PadCenter(s: string, w: nat): string
  {
    if |s| >= w then s
    else
      var pad := w - |s|;
      Repeat(' ', pad / 2) + s + Repeat(' ', (pad + 1) / 2)
  }

  /** `format!("{:0>w$}", s)`: right-aligned, filled with `fill` on the left up to `w` chars. */
  function PadLeft(s: string, fill: char, w: nat): string
  {
    if |s| >= w then s else Repeat(fill, w - |s|) + s
  }

  lemma {:induction false} ByteLenRepeatSpace(k: nat)
    ensures Encode(Repeat(' ', k)) == seq(k, i => 0x20)
  {
    if k > 0 {
      assert Repeat(' ', k)[1..] == Repeat(' ', k - 1);
      ByteLenRepeatSpace(k - 1);
    }
  }

  /** A string has at least as many bytes as chars. */
  lemma {:induction false} CharsAtMostBytes(s: string)
    ensures |s| <= ByteLen(s)
  {
    if s != [] { CharsAtMostBytes(s[1..]); }
  }

  /**
   * The padding `ResourceHead::new` uses for `Id` and `Name`: centring to
   * `width - len + chars` chars yields exactly `width` bytes when the value is
   * within budget, with the `width - len` spaces split floor/ceil left/right.
   */
  lemma PadCenterBytes(s: string, width: nat)
    requires ByteLen(s) <= width
    ensures var p := PadCenter(s, width - ByteLen(s) + |s|);
      && ByteLen(p) == width
      && p == Repeat(' ', (width - ByteLen(s)) / 2) + s + Repeat(' ', (width - ByteLen(s) + 1) / 2)
  {
    var pad := width - ByteLen(s);
    var p := PadCenter(s, pad + |s|);
    if pad == 0 {
      assert Repeat(' ', 0) == [];
      assert p == [] + s + [];
    } else {
      EncodeAppend(Repeat(' ', pad / 2), s);
      EncodeAppend(Repeat(' ', pad / 2) + s, Repeat(' ', (pad + 1) / 2));
      ByteLenRepeatSpace(pad / 2);
      ByteLenRepeatSpace((pad + 1) / 2);
    }
  }

  /** `trim` leaves no whitespace at either end. */
  lemma TrimIsTrimmed(s: string)
    ensures Trimmed(Trim(s))
  {
    var t := TrimStart(s);
    var r := TrimEnd(t);
    if r != [] {
      assert r[0] == t[0];
    }
  }

  /** Trimming a centred value gives it back when it had no surrounding whitespace. */
  lemma TrimPadCenter(s: string, w: nat)
    requires Trimmed(s)
    ensures Trim(PadCenter(s, w)) == s
  {
    if |s| < w {
      var pad := w - |s|;
      var l, r := Repeat(' ', pad / 2), Repeat(' ', (pad + 1) / 2);
      if s == [] {
        assert PadCenter(s, w) == l + r;
        SpacesTrimmed(l + r);
      } else {
        assert PadCenter(s, w) == l + (s + r);
        TrimStartSpaces(l, s + r);
        assert TrimStart(s + r) == s + r;
        TrimEndSpaces(s, r);
      }
    }
  }

  lemma {:induction false} SpacesTrimmed(p: string)
    requires forall i :: 0 <= i < |p| ==> p[i] == ' '
    ensures TrimStart(p) == []
  {
    if p != [] {
      SpacesTrimmed(p[1..]);
    }
  }

  lemma {:induction false} TrimStartSpaces(l: string, t: string)
    requires forall i :: 0 <= i < |l| ==> l[i] == ' '
    requires t == [] || !IsWhitespace(t[0]) || forall i :: 0 <= i < |t| ==> t[i] == ' '
    ensures TrimStart(l + t) == TrimStart(t)
  {
    if l != [] {
      assert (l + t)[1..] == l[1..] + t;
      TrimStartSpaces(l[1..], t);
    }
  }

  lemma {:induction false} TrimEndSpaces(s: string, r: string)
    requires forall i :: 0 <= i < |r| ==> r[i] == ' '
    requires s == [] || !IsWhitespace(s[|s| - 1])
    ensures TrimEnd(s + r) == s
  {
    if r != [] {
      assert (s + r)[..|s + r| - 1] == s + r[..|r| - 1];
      TrimEndSpaces(s, r[..|r| - 1]);
    } else {
      assert s + r == s;
    }
  }
}
