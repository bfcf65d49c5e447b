/**
 * `addResource`: appends one record, the encoded header, the resource bytes and
 * the `ODEND` trailer, to the end of the target file.
 */
module Append {
  import opened Types
  import Text
  import Numbers
  import opened Record
  import opened RecordFacts
  import opened Files

  /** Why `addResource` stops before appending anything. */
  datatype AddError =
    /** `ResourceHead::new` underflows its width arithmetic (an `Id` or `Name` over budget). */
    | Panic
    /** The encoded header is not as long as the default one. */
    | NonStandardHeader

  function ModeOf(compressed: bool): CompressMode
  {
    if compressed then Compress else CompressMode.None
  }

  /**
   * The bytes `addResource` appends for the resource `payload` (the file read,
   * already compressed when a compression grade was given), or why it stops.
   */
  function Appended(payload: seq<Byte>, id: string, name: string, compressed: bool): Result<seq<Byte>, AddError>
  {
    if !WithinBudget(id, name) then Err(Panic)
    else
      var head := ToBytes(New(id, |payload|, |payload|, name, ModeOf(compressed)));
      if |head| != GetLen(Default()) then Err(NonStandardHeader)
      else Ok(head + payload + END_IDENTIFIER)
  }

  function Outcome(a: Result<seq<Byte>, AddError>): Result<(), AddError>
  {
    match a
    case Ok(_) => Ok(())
    case Err(e) => Err(e)
  }

  function Written(a: Result<seq<Byte>, AddError>): seq<Byte>
  {
    match a
    case Ok(bytes) => bytes
    case Err(_) => []
  }

  /**
   * `addResource` on an open target: checks the header, writes it, copies the
   * resource through an 8 KiB buffer until a short read, then writes the trailer.
   * On an error nothing has been written.
   */
  method AddResource(target: Writer, payload: seq<Byte>, id: string, name: string, compressed: bool)
    returns (r: Result<(), AddError>)
    modifies target
    ensures r == Outcome(Appended(payload, id, name, compressed))
    ensures target.data == old(target.data) + Written(Appended(payload, id, name, compressed))
  {
    var mode := ModeOf(compressed);
    if !WithinBudget(id, name) {
      return Err(Panic);
    }
    var head := ToBytes(New(id, |payload|, |payload|, name, mode));
    AppendedWith(payload, id, name, compressed, head);
    if |head| != GetLen(Default()) {
      return Err(NonStandardHeader);
    }
    ghost var before := target.data;
    target.WriteAll(head);
    CopyResource(target, payload);
    target.WriteAll(END_IDENTIFIER);
    AssocThree(before, head, payload, END_IDENTIFIER);
    return Ok(());
  }

  /** The copy loop of `addResource`: 8 KiB reads, each written out, until a short read. */
  method CopyResource(target: Writer, payload: seq<Byte>)
    modifies target
    ensures target.data == old(target.data) + payload
  {
    var source := new Reader.Open(payload);
    var buffer := new Byte[BUFFER_SIZE](_ => 0);
    while true
      invariant source.data == payload && source.pos <= |payload| && buffer.Length == BUFFER_SIZE
      invariant target.data == old(target.data) + payload[..source.pos]
      decreases |payload| - source.pos
    {
      ghost var before := source.pos;
      var nbytes := source.Read(buffer);
      assert payload[..before] + buffer[..nbytes] == payload[..before + nbytes];
      target.WriteAll(buffer[..nbytes]);
      if nbytes < buffer.Length {
        assert source.pos == |payload|;
        break;
      }
    }
    assert payload[..|payload|] == payload;
  }

  /** Regrouping four byte strings; kept apart so the method's own proof stays small. */
  lemma AssocThree(a: seq<Byte>, b: seq<Byte>, c: seq<Byte>, d: seq<Byte>)
    ensures a + b + c + d == a + (b + c + d)
  {
  }

  lemma AppendedWith(payload: seq<Byte>, id: string, name: string, compressed: bool, head: seq<Byte>)
    requires WithinBudget(id, name) && head == ToBytes(New(id, |payload|, |payload|, name, ModeOf(compressed)))
    ensures Appended(payload, id, name, compressed) ==
      if |head| != GetLen(Default()) then Err(NonStandardHeader) else Ok(head + payload + END_IDENTIFIER)
  {
  }

  /**
   * `addResource` appends exactly when the names are within budget and the
   * resource length fits the 13 digits of `Length`.
   */
  lemma AppendedSucceeds(payload: seq<Byte>, id: string, name: string, compressed: bool)
    ensures Appended(payload, id, name, compressed).Ok? <==>
      WithinBudget(id, name) && |payload| < Numbers.Pow(10, NUMBER_WIDTH)
    ensures Appended(payload, id, name, compressed) == Err(Panic) <==> !WithinBudget(id, name)
  {
    DefaultLength();
    if WithinBudget(id, name) {
      NewLength(id, |payload|, |payload|, name, ModeOf(compressed));
    }
  }

  /**
   * A header `new` builds for a payload length that fits 13 digits is 418 bytes
   * long, decodes back to itself, carries the magic at `MAGIC_OFFSET`, reads back
   * the length from `Length` and `Size`, and keeps a trimmed `Id` under `trim`.
   */
  lemma NewHeader(id: string, n: nat, name: string, mode: CompressMode)
    requires WithinBudget(id, name) && n < Numbers.Pow(10, NUMBER_WIDTH)
    ensures var h := New(id, n, n, name, mode);
      && |ToBytes(h)| == HEAD_LEN
      && From(ToBytes(h)) == Some(h)
      && ToBytes(h)[MAGIC_OFFSET..MAGIC_OFFSET + |MAGIC|] == MAGIC
      && Numbers.ParseUnsigned(h.length, U64_MAX) == Some(n)
      && Numbers.ParseUnsigned(Text.Trim(h.size), U64_MAX) == Some(n)
      && (Text.Trimmed(id) ==> Text.Trim(h.id) == id)
  {
    WidthFits();
    NewHeaderBytes(id, n, name, mode);
    NewHeaderFields(id, n, name, mode);
  }

  /** Every number of `NUMBER_WIDTH` digits fits a `u64`. */
  lemma WidthFits()
    ensures Numbers.Pow(10, NUMBER_WIDTH) <= U64_MAX
  {
    NumberWidth();
    assert Numbers.Pow(10, 13) == 10000000000000;
  }

  /** The encoded header is `HEAD_LEN` bytes, decodes back, and holds the magic. */
  lemma NewHeaderBytes(id: string, n: nat, name: string, mode: CompressMode)
    requires WithinBudget(id, name) && n < Numbers.Pow(10, NUMBER_WIDTH)
    ensures var h := New(id, n, n, name, mode);
      && |ToBytes(h)| == HEAD_LEN
      && From(ToBytes(h)) == Some(h)
      && ToBytes(h)[MAGIC_OFFSET..MAGIC_OFFSET + |MAGIC|] == MAGIC
  {
    var h := New(id, n, n, name, mode);
    WidthFits();
    NewLength(id, n, n, name, mode);
    NewEncodable(id, n, n, name, mode);
    FromToBytes(h, []);
    assert ToBytes(h) + [] == ToBytes(h);
    MagicInHeader(h);
  }

  /** `Length` and `Size` parse back to the size, and the centred `Id` trims back. */
  lemma NewHeaderFields(id: string, n: nat, name: string, mode: CompressMode)
    requires WithinBudget(id, name) && n < Numbers.Pow(10, NUMBER_WIDTH)
    ensures var h := New(id, n, n, name, mode);
      && Numbers.ParseUnsigned(h.length, U64_MAX) == Some(n)
      && Numbers.ParseUnsigned(Text.Trim(h.size), U64_MAX) == Some(n)
      && (Text.Trimmed(id) ==> Text.Trim(h.id) == id)
  {
    WidthFits();
    NewNumbers(id, n, n, name, mode);
    if Text.Trimmed(id) {
      NewPadding(id, n, n, name, mode);
      CenteredField(id, MAX_ID_LENGTH);
    }
  }


  /**
   * What `addResource` appends is the 418-byte header `new` builds, the payload
   * and `ODEND`.
   */
  lemma AppendedLayout(payload: seq<Byte>, id: string, name: string, compressed: bool)
    requires Appended(payload, id, name, compressed).Ok?
    ensures var bytes := Appended(payload, id, name, compressed).value;
      var h := New(id, |payload|, |payload|, name, ModeOf(compressed));
      && |bytes| == HEAD_LEN + |payload| + |END_IDENTIFIER|
      && bytes[..HEAD_LEN] == ToBytes(h)
      && bytes[HEAD_LEN..HEAD_LEN + |payload|] == payload
      && bytes[HEAD_LEN + |payload|..] == END_IDENTIFIER
  {
    AppendedSucceeds(payload, id, name, compressed);
    var head := ToBytes(New(id, |payload|, |payload|, name, ModeOf(compressed)));
    NewHeader(id, |payload|, name, ModeOf(compressed));
    AppendedWith(payload, id, name, compressed, head);
    Parts(head, payload, END_IDENTIFIER);
  }

  /** The three pieces of a concatenation, by position. */
  lemma Parts(a: seq<Byte>, b: seq<Byte>, c: seq<Byte>)
    ensures var x := a + b + c;
      x[..|a|] == a && x[|a|..|a| + |b|] == b && x[|a| + |b|..] == c && |x| == |a| + |b| + |c|
  {
  }
}
