/**
 * The record format of `src/core.rs`: the constants, `CompressMode`, the
 * `ResourceHead` header with its fixed-width fields, its bincode encoding
 * (`to_bytes`) and decoding (`from`), and the `ODEND` trailer.
 *
 * bincode's default layout is written out: a `Vec<u8>` or `String` is an 8-byte
 * little-endian length followed by its bytes, an enum is a 4-byte little-endian
 * variant index, and the fields follow in declaration order.
 */
module Record {
  import opened Types
  import Text
  import Numbers

  /** Read buffer size, 8 KiB. */
  const BUFFER_SIZE: nat := 8192

  /** Largest resource size, 1024 GiB; its digit count fixes the width of `Length` and `Size`. */
  const MAX_LENGTH_SIZE: nat := 1024 * 1024 * 1024 * 1024

  /** Byte budget of the padded `Id`. */
  const MAX_ID_LENGTH: nat := 64

  /** Byte budget of the padded `Name`. */
  const MAX_NAME_LENGTH: nat := 255

  /** `MAX_LENGTH_SIZE.to_string().len()`. */
  const NUMBER_WIDTH: nat := |Numbers.ToDecimal(MAX_LENGTH_SIZE)|

  /** The header magic: 0x89, "OverlayData", CR LF SUB LF. */
  const MAGIC: seq<Byte> :=
    [0x89, 0x4F, 0x76, 0x65, 0x72, 0x6C, 0x61, 0x79, 0x44, 0x61, 0x74, 0x61, 0x0D, 0x0A, 0x1A, 0x0A]

  /** The record format version written by this program. */
  const VERSION: string := "1.0.0"

  /** The trailer after the payload, "ODEND". */
  const END_IDENTIFIER: seq<Byte> := [0x4F, 0x44, 0x45, 0x4E, 0x44]

  /** Width of bincode's length prefix of a `Vec<u8>`/`String` (a `u64`). */
  const LENGTH_PREFIX: nat := 8

  /** Width of bincode's enum variant index (a `u32`). */
  const VARIANT_WIDTH: nat := 4

  /**
   * Where the magic bytes sit in an encoded header: `Head` is the first field, so
   * they follow its length prefix. The scanner subtracts this from a magic match.
   */
  const MAGIC_OFFSET: nat := LENGTH_PREFIX

  datatype CompressMode = None | Compress

  datatype ResourceHead = ResourceHead(
    head: seq<Byte>,
    version: string,
    id: string,
    name: string,
    length: string,
    size: string,
    compress: CompressMode)

  lemma NumberWidth()
    ensures NUMBER_WIDTH == 13
  {
    Numbers.ToDecimalLength(MAX_LENGTH_SIZE, 13);
    Numbers.ToDecimalLength(MAX_LENGTH_SIZE, 12);
  }

  /** The callers' inputs for which `ResourceHead::new` does not underflow its width arithmetic. */
  predicate WithinBudget(id: string, name: string)
  {
    Text.ByteLen(id) <= MAX_ID_LENGTH && Text.ByteLen(name) <= MAX_NAME_LENGTH
  }

  /**
   * `ResourceHead::new`. The padding width `MAX - len + chars` is `usize`
   * arithmetic that would underflow for a value over its byte budget, so the
   * value must be within budget.
   */
  function New(id: string, length: nat, size: nat, name: string, mode: CompressMode): (h: ResourceHead)
    requires WithinBudget(id, name)
  {
    ResourceHead(
      MAGIC,
      VERSION,
      Text.PadCenter(id, MAX_ID_LENGTH - Text.ByteLen(id) + |id|),
      Text.PadCenter(name, MAX_NAME_LENGTH - Text.ByteLen(name) + |name|),
      Text.PadLeft(Numbers.ToDecimal(length), '0', NUMBER_WIDTH),
      Text.PadLeft(Numbers.ToDecimal(size), '0', NUMBER_WIDTH),
      mode)
  }

  /** `ResourceHead::default`. */
  function Default(): ResourceHead
  {
    New("", 0, 0, "", CompressMode.None)
  }

  /** `getHead`. */
  function GetHead(h: ResourceHead): seq<Byte>
  {
    h.head
  }

  // ------------------------------------------------------------ encoding

  function EncodeBytes(b: seq<Byte>): seq<Byte>
  {
    Numbers.LeBytes(|b|, LENGTH_PREFIX) + b
  }

  function EncodeStr(s: string): seq<Byte>
  {
    EncodeBytes(Text.Encode(s))
  }

  function VariantIndex(m: CompressMode): nat
  {
    match m
    case None => 0
    case Compress => 1
  }

  /** `to_bytes`: bincode serialisation, fields in declaration order. */
  function ToBytes(h: ResourceHead): seq<Byte>
  {
    EncodeBytes(h.head) + (EncodeStr(h.version) + (EncodeStr(h.id) + (EncodeStr(h.name)
    + (EncodeStr(h.length) + (EncodeStr(h.size) + Numbers.LeBytes(VariantIndex(h.compress), VARIANT_WIDTH))))))
  }

  /** `getLen`. */
  function GetLen(h: ResourceHead): nat
  {
    |ToBytes(h)|
  }

  // ------------------------------------------------------------ decoding

  /** A length-prefixed byte string at `pos`, and the position after it. */
  function DecodeBytes(data: seq<Byte>, pos: nat): (r: Option<(seq<Byte>, nat)>)
    ensures r.Some? ==> pos + LENGTH_PREFIX + |r.value.0| == r.value.1 <= |data|
  {
    if pos + LENGTH_PREFIX > |data| then Option.None
    else
      var len := Numbers.LeValue(data[pos..pos + LENGTH_PREFIX]);
      if pos + LENGTH_PREFIX + len > |data| then Option.None
      else Some((data[pos + LENGTH_PREFIX..pos + LENGTH_PREFIX + len], pos + LENGTH_PREFIX + len))
  }

  /** A length-prefixed `String`: its bytes must be well-formed UTF-8. */
  function DecodeStr(data: seq<Byte>, pos: nat): (r: Option<(string, nat)>)
    ensures r.Some? ==> pos < r.value.1 <= |data|
  {
    match DecodeBytes(data, pos)
    case None => Option.None
    case Some((b, next)) =>
      match Text.Decode(b)
      case None => Option.None
      case Some(s) => Some((s, next))
  }

  function DecodeMode(data: seq<Byte>, pos: nat): Option<CompressMode>
  {
    if pos + VARIANT_WIDTH > |data| then Option.None
    else
      var v := Numbers.LeValue(data[pos..pos + VARIANT_WIDTH]);
      if v == 0 then Some(CompressMode.None)
      else if v == 1 then Some(Compress)
      else Option.None
  }

  /**
   * `ResourceHead::from`: bincode deserialisation. Fails (rather than panicking)
   * on truncated input, a bad UTF-8 string or an unknown variant; bytes after
   * the header are ignored.
   */
  function From(data: seq<Byte>): Option<ResourceHead>
  {
    match DecodeBytes(data, 0)
    case None => Option.None
    case Some((head, p1)) =>
      match DecodeStr(data, p1)
      case None => Option.None
      case Some((version, p2)) =>
        match DecodeStr(data, p2)
        case None => Option.None
        case Some((id, p3)) =>
          match DecodeStr(data, p3)
          case None => Option.None
          case Some((name, p4)) =>
            match DecodeStr(data, p4)
            case None => Option.None
            case Some((length, p5)) =>
              match DecodeStr(data, p5)
              case None => Option.None
              case Some((size, p6)) =>
                match DecodeMode(data, p6)
                case None => Option.None
                case Some(mode) => Some(ResourceHead(head, version, id, name, length, size, mode))
  }
}
