/**
 * `addResource` followed by `exportResource`: a record appended to a file is
 * exported back, byte for byte, as long as the scan can see it. The scan looks
 * at 8 KiB chunks one at a time, so the record's magic and its `ODEND` trailer
 * must each lie within one chunk, and nothing before them may look like either.
 */
module RoundTrip {
  import opened Types
  import Text
  import opened Record
  import opened RecordFacts
  import opened Files
  import opened Scan
  import opened ScanFacts
  import opened Append
  import Util
  import Numbers

  // ------------------------------------------------------------ the copy loop

  /** A full read that holds no `ODEND` is written out whole and the loop goes on. */
  lemma CopyFull(data: seq<Byte>, p: nat, buf: seq<Byte>, w: seq<Byte>)
    requires |buf| == BUFFER_SIZE && p + BUFFER_SIZE <= |data|
    requires Util.NoMatchIn(data[p..p + BUFFER_SIZE], END_IDENTIFIER, 0, BUFFER_SIZE)
    ensures CopyOut(data, p, buf, w) == CopyOut(data, p + BUFFER_SIZE, data[p..p + BUFFER_SIZE], w + data[p..p + BUFFER_SIZE])
  {
    var r := ReadInto(data, p, buf);
    assert r.0 == BUFFER_SIZE;
    assert r.1 == r.1[..r.0];
  }

  /**
   * `ODEND` right after bytes `q` that hold none is the first `ODEND`: it begins
   * with 'O', which occurs nowhere else in it, so no occurrence can overlap it.
   */
  lemma EndFirst(chunk: seq<Byte>, q: seq<Byte>)
    requires |q| + |END_IDENTIFIER| <= |chunk| && chunk[..|q|] == q
    requires chunk[|q|..|q| + |END_IDENTIFIER|] == END_IDENTIFIER
    requires Util.NoMatchIn(q, END_IDENTIFIER, 0, |q|)
    ensures Util.FindSubsequence(chunk, END_IDENTIFIER) == Some(|q|)
  {
    var k := |q|;
    forall j | 0 <= j < k
      ensures !Util.MatchAt(chunk, END_IDENTIFIER, j)
    {
      if j + 5 <= k {
        assert chunk[j..j + 5] == q[j..j + 5];
        assert !Util.MatchAt(q, END_IDENTIFIER, j);
      } else {
        assert chunk[k] == chunk[k..k + 5][0] == 0x4F;
        assert chunk[j..j + 5][k - j] == chunk[k];
      }
    }
    Util.FindFirst(chunk, END_IDENTIFIER, k);
  }

  /**
   * The copy loop from the start of a payload with no `ODEND` inside, followed by
   * `ODEND` that does not cross a chunk boundary, writes exactly the payload.
   */
  lemma {:induction false} CopyPayload(data: seq<Byte>, p: nat, buf: seq<Byte>, w: seq<Byte>, payload: seq<Byte>)
    requires |buf| == BUFFER_SIZE && p + |payload| + |END_IDENTIFIER| <= |data|
    requires data[p..p + |payload|] == payload
    requires data[p + |payload|..p + |payload| + |END_IDENTIFIER|] == END_IDENTIFIER
    requires Util.NoMatchIn(payload, END_IDENTIFIER, 0, |payload|)
    requires |payload| % BUFFER_SIZE + |END_IDENTIFIER| <= BUFFER_SIZE
    ensures CopyOut(data, p, buf, w) == (w + payload, false)
    decreases |payload|
  {
    if |payload| >= BUFFER_SIZE {
      var first, rest := PayloadChunk(data, p, buf, w, payload);
      CopyPayload(data, p + BUFFER_SIZE, first, w + first, rest);
      assert w + first + rest == w + payload;
    } else {
      CopyLast(data, p, buf, w, payload);
    }
  }

  /** A full read inside a payload with no `ODEND` is written out whole, and the loop goes on. */
  lemma PayloadChunk(data: seq<Byte>, p: nat, buf: seq<Byte>, w: seq<Byte>, payload: seq<Byte>)
    returns (first: seq<Byte>, rest: seq<Byte>)
    requires |buf| == BUFFER_SIZE && BUFFER_SIZE <= |payload| && p + |payload| <= |data|
    requires data[p..p + |payload|] == payload && Util.NoMatchIn(payload, END_IDENTIFIER, 0, |payload|)
    ensures payload == first + rest && |first| == BUFFER_SIZE
    ensures data[p + BUFFER_SIZE..p + BUFFER_SIZE + |rest|] == rest && Util.NoMatchIn(rest, END_IDENTIFIER, 0, |rest|)
    ensures CopyOut(data, p, buf, w) == CopyOut(data, p + BUFFER_SIZE, first, w + first)
  {
    first, rest := payload[..BUFFER_SIZE], payload[BUFFER_SIZE..];
    assert data[p..p + BUFFER_SIZE] == first;
    forall j | 0 <= j < BUFFER_SIZE
      ensures !Util.MatchAt(first, END_IDENTIFIER, j)
    {
      if j + 5 <= BUFFER_SIZE {
        assert first[j..j + 5] == payload[j..j + 5];
        assert !Util.MatchAt(payload, END_IDENTIFIER, j);
      }
    }
    CopyFull(data, p, buf, w);
    forall j | 0 <= j < |rest|
      ensures !Util.MatchAt(rest, END_IDENTIFIER, j)
    {
      if j + 5 <= |rest| {
        assert rest[j..j + 5] == payload[BUFFER_SIZE + j..BUFFER_SIZE + j + 5];
        assert !Util.MatchAt(payload, END_IDENTIFIER, BUFFER_SIZE + j);
      }
    }
    assert payload == first + rest;
  }

  /** The last read of the copy holds the rest of the payload and all of `ODEND`. */
  lemma CopyLast(data: seq<Byte>, p: nat, buf: seq<Byte>, w: seq<Byte>, payload: seq<Byte>)
    requires |buf| == BUFFER_SIZE && p + |payload| + |END_IDENTIFIER| <= |data|
    requires data[p..p + |payload|] == payload
    requires data[p + |payload|..p + |payload| + |END_IDENTIFIER|] == END_IDENTIFIER
    requires Util.NoMatchIn(payload, END_IDENTIFIER, 0, |payload|)
    requires |payload| + |END_IDENTIFIER| <= BUFFER_SIZE
    ensures CopyOut(data, p, buf, w) == (w + payload, false)
  {
    var (n, chunk) := ReadInto(data, p, buf);
    var k := |payload|;
    var e := k + |END_IDENTIFIER|;
    assert e <= n;
    assert chunk[..e] == data[p..p + e];
    assert chunk[..k] == payload;
    assert chunk[k..e] == END_IDENTIFIER;
    EndFirst(chunk, payload);
  }


  // ------------------------------------------------------------ the scan loop

  /** A full read holding no magic finds none. */
  lemma FullMiss(data: seq<Byte>, pos: nat, buf: seq<Byte>, count: nat)
    requires |buf| == BUFFER_SIZE && count >= 1 && pos + BUFFER_SIZE <= |data|
    requires Util.NoMatchIn(data, MAGIC, pos, pos + BUFFER_SIZE)
    ensures ProbeAt(data, pos, buf, count) == (Miss(BUFFER_SIZE), data[pos..pos + BUFFER_SIZE])
  {
    var r := ReadInto(data, pos, buf);
    assert r.0 == BUFFER_SIZE;
    assert r.1 == r.1[..r.0] == data[pos..pos + BUFFER_SIZE];
    forall j | 0 <= j < BUFFER_SIZE
      ensures !Util.MatchAt(r.1, MAGIC, j)
    {
      if j + |MAGIC| <= BUFFER_SIZE {
        SliceOfSlice(data, pos, BUFFER_SIZE, j, j + |MAGIC|);
        assert !Util.MatchAt(data, MAGIC, pos + j);
      }
    }
    assert Util.FindSubsequence(r.1, MAGIC) == Option.None;
  }

  /** A full chunk holding no magic is passed over by `exportResource`'s scan. */
  lemma ExportSkip(data: seq<Byte>, pos: nat, buf: seq<Byte>, count: nat, id: string)
    requires |buf| == BUFFER_SIZE && pos == BUFFER_SIZE * count && pos + BUFFER_SIZE <= |data|
    requires Util.NoMatchIn(data, MAGIC, pos, pos + BUFFER_SIZE)
    ensures ExportScan(data, pos, buf, count, id) == ExportScan(data, pos + BUFFER_SIZE, data[pos..pos + BUFFER_SIZE], count + 1, id)
  {
    FullMiss(data, pos, buf, count + 1);
  }

  /** Chunks in which no magic starts are passed over one after the other. */
  lemma {:induction false} ExportSkipFrom(data: seq<Byte>, pos: nat, count: nat, k: nat, buf: seq<Byte>, id: string)
    returns (last: seq<Byte>, end: nat, c: nat)
    requires |buf| == BUFFER_SIZE && pos == BUFFER_SIZE * count && pos + BUFFER_SIZE * k <= |data|
    requires Util.NoMatchIn(data, MAGIC, pos, pos + BUFFER_SIZE * k)
    ensures |last| == BUFFER_SIZE && end == pos + BUFFER_SIZE * k && c == count + k
    ensures ExportScan(data, pos, buf, count, id) == ExportScan(data, end, last, c, id)
    decreases k
  {
    if k == 0 {
      last, end, c := buf, pos, count;
    } else {
      var next := NextChunk(pos, count, k);
      ExportSkip(data, pos, buf, count, id);
      last, end, c := ExportSkipFrom(data, next, count + 1, k - 1, data[pos..next], id);
    }
  }

  /** The start of the next chunk. */
  lemma NextChunk(pos: nat, count: nat, k: nat) returns (next: nat)
    requires pos == BUFFER_SIZE * count && k >= 1
    ensures next == pos + BUFFER_SIZE && next == BUFFER_SIZE * (count + 1)
    ensures next + BUFFER_SIZE * (k - 1) == pos + BUFFER_SIZE * k && BUFFER_SIZE <= BUFFER_SIZE * k
  {
    next := pos + BUFFER_SIZE;
  }

  /**
   * The read of the chunk holding a whole magic, with no other magic starting
   * before it in that chunk, first matches there, and the match points
   * `MAGIC_OFFSET` bytes back.
   */
  lemma MagicProbe(data: seq<Byte>, pos: nat, m: nat, buf: seq<Byte>, size: nat, start: nat)
    requires |buf| == BUFFER_SIZE && pos == BUFFER_SIZE * m && start + MAGIC_OFFSET == pos + size
    requires size + |MAGIC| <= BUFFER_SIZE && start + MAGIC_OFFSET + |MAGIC| <= |data|
    requires Util.NoMatchIn(data, MAGIC, pos, start + MAGIC_OFFSET)
    requires data[start + MAGIC_OFFSET..start + MAGIC_OFFSET + |MAGIC|] == MAGIC
    ensures Util.FindSubsequence(ReadInto(data, pos, buf).1, MAGIC) == Some(size)
    ensures HeaderStart(m + 1, size) == Some(start)
  {
    MagicChunk(data, pos, buf, size);
    Util.FindFirst(ReadInto(data, pos, buf).1, MAGIC, size);
  }

  /** A probe whose chunk holds the magic at `size` decodes the header it points at. */
  lemma ProbeFoundAt(data: seq<Byte>, pos: nat, buf: seq<Byte>, count: nat, size: nat, start: nat, h: ResourceHead)
    returns (n: nat, chunk: seq<Byte>)
    requires count >= 1 && pos <= |data|
    requires Util.FindSubsequence(ReadInto(data, pos, buf).1, MAGIC) == Some(size)
    requires HeaderStart(count, size) == Some(start) && HeaderAt(data, start, h)
    ensures ProbeAt(data, pos, buf, count) == (Found(start, h, n, pos + n), chunk)
  {
    n, chunk := ReadInto(data, pos, buf).0, ReadInto(data, pos, buf).1;
  }

  /** The read at `pos` holds the bytes of the file up to the end of the magic. */
  lemma MagicChunk(data: seq<Byte>, pos: nat, buf: seq<Byte>, size: nat)
    requires |buf| == BUFFER_SIZE && size + |MAGIC| <= BUFFER_SIZE && pos + size + |MAGIC| <= |data|
    requires Util.NoMatchIn(data, MAGIC, pos, pos + size)
    requires data[pos + size..pos + size + |MAGIC|] == MAGIC
    ensures var chunk := ReadInto(data, pos, buf).1;
      chunk[size..size + |MAGIC|] == MAGIC && Util.NoMatchIn(chunk, MAGIC, 0, size)
  {
    var (n, chunk) := ReadInto(data, pos, buf);
    var e := size + |MAGIC|;
    assert e <= n;
    assert chunk[..e] == data[pos..pos + e];
    assert chunk[size..e] == chunk[..e][size..e];
    forall j | 0 <= j < size
      ensures !Util.MatchAt(chunk, MAGIC, j)
    {
      assert chunk[j..j + |MAGIC|] == chunk[..e][j..j + |MAGIC|];
      SliceOfSlice(data, pos, e, j, j + |MAGIC|);
      assert !Util.MatchAt(data, MAGIC, pos + j);
    }
  }

  /** The chunk that holds the whole magic of a header is where the scan stops for its `Id`. */
  lemma ExportAtMagic(data: seq<Byte>, pos: nat, m: nat, buf: seq<Byte>, size: nat, start: nat, h: ResourceHead, id: string)
    returns (chunk: seq<Byte>)
    requires |buf| == BUFFER_SIZE && pos == BUFFER_SIZE * m && start + MAGIC_OFFSET == pos + size
    requires size + |MAGIC| <= BUFFER_SIZE && start + MAGIC_OFFSET + |MAGIC| <= |data|
    requires Util.NoMatchIn(data, MAGIC, pos, start + MAGIC_OFFSET)
    requires data[start + MAGIC_OFFSET..start + MAGIC_OFFSET + |MAGIC|] == MAGIC
    requires HeaderAt(data, start, h) && Text.Trim(h.id) == id
    ensures |chunk| == BUFFER_SIZE && ExportScan(data, pos, buf, m, id) == Matched(start, h, chunk)
  {
    MagicProbe(data, pos, m, buf, size, start);
    var n;
    n, chunk := ProbeFoundAt(data, pos, buf, m + 1, size, start, h);
    ScanHit(data, pos, buf, m, id, Found(start, h, n, pos + n), chunk);
  }

  /** A pass whose probe finds a header with the `Id` asked for ends the scan there. */
  lemma ScanHit(data: seq<Byte>, pos: nat, buf: seq<Byte>, m: nat, id: string, probe: Probe, chunk: seq<Byte>)
    requires pos <= |data| && |buf| == BUFFER_SIZE && BUFFER_SIZE * m <= pos + BUFFER_SIZE
    requires ProbeAt(data, pos, buf, m + 1) == (probe, chunk) && probe.Found? && Text.Trim(probe.h.id) == id
    ensures ExportScan(data, pos, buf, m, id) == Matched(probe.start, probe.h, chunk)
  {
  }

  /**
   * A header with no magic starting before its own, whose magic lies within one
   * chunk, is where `exportResource`'s scan stops when its trimmed `Id` is the
   * one asked for.
   */
  lemma ExportReaches(data: seq<Byte>, start: nat, h: ResourceHead, id: string) returns (chunk: seq<Byte>)
    requires start + MAGIC_OFFSET + |MAGIC| <= |data| && Util.NoMatchIn(data, MAGIC, 0, start + MAGIC_OFFSET)
    requires data[start + MAGIC_OFFSET..start + MAGIC_OFFSET + |MAGIC|] == MAGIC
    requires (start + MAGIC_OFFSET) % BUFFER_SIZE + |MAGIC| <= BUFFER_SIZE
    requires HeaderAt(data, start, h) && Text.Trim(h.id) == id
    ensures |chunk| == BUFFER_SIZE && ExportScan(data, 0, Zeros(), 0, id) == Matched(start, h, chunk)
  {
    var m, size := ChunkOf(start + MAGIC_OFFSET);
    assert Util.NoMatchIn(data, MAGIC, 0, BUFFER_SIZE * m);
    var buf, end, c := ExportSkipFrom(data, 0, 0, m, Zeros(), id);
    assert Util.NoMatchIn(data, MAGIC, end, start + MAGIC_OFFSET);
    chunk := ExportAtMagic(data, end, c, buf, size, start, h, id);
  }

  /** Offset `x` is byte `size` of chunk `m + 1`. */
  lemma ChunkOf(x: nat) returns (m: nat, size: nat)
    ensures x == BUFFER_SIZE * m + size && size == x % BUFFER_SIZE
  {
    m := x / BUFFER_SIZE;
    size := x % BUFFER_SIZE;
  }

  // ------------------------------------------------------------ the round trip

  /** The checks after the scan pass for a header of this version whose `ODEND` is in place. */
  lemma GateOpens(data: seq<Byte>, start: nat, h: ResourceHead, n: nat)
    requires start + HEAD_LEN + n + |END_IDENTIFIER| <= |data| && start + HEAD_LEN + n <= U64_MAX
    requires h.version == VERSION && Numbers.ParseUnsigned(h.length, U64_MAX) == Some(n)
    requires data[start + HEAD_LEN + n..start + HEAD_LEN + n + |END_IDENTIFIER|] == END_IDENTIFIER
    ensures ExportGate(data, start, h) == Ok(start + HEAD_LEN)
  {
    VersionPasses(h);
  }

  /** A header of the current version passes the version checks. */
  lemma VersionPasses(h: ResourceHead)
    requires h.version == VERSION
    ensures Util.VersionCompare(h.version, VERSION) == Some(Equal)
  {
    CurrentVersion();
    Util.CompareReflexive([1, 0, 0]);
    Util.VersionCompareValid(VERSION, VERSION);
  }

  /** bincode's length prefix of the 16-byte magic: 16 as an 8-byte little-endian integer. */
  const MAGIC_PREFIX: seq<Byte> := [16, 0, 0, 0, 0, 0, 0, 0]

  /** An encoded header begins with the length prefix of its magic. */
  lemma PrefixOfMagic(h: ResourceHead)
    requires h.head == MAGIC
    ensures |ToBytes(h)| >= MAGIC_OFFSET && ToBytes(h)[..MAGIC_OFFSET] == MAGIC_PREFIX
  {
    assert Numbers.LeBytes(16, 8) == [16, 0, 0, 0, 0, 0, 0, 0];
    assert ToBytes(h)[..MAGIC_OFFSET] == EncodeBytes(h.head)[..MAGIC_OFFSET] == Numbers.LeBytes(16, 8);
  }

  /** Where the header, the payload and `ODEND` of a record sit in a file. */
  lemma Placed(host: seq<Byte>, head: seq<Byte>, payload: seq<Byte>, tail: seq<Byte>)
    ensures var data := host + (head + payload + END_IDENTIFIER) + tail; var start := |host|;
      && |data| == start + |head| + |payload| + |END_IDENTIFIER| + |tail|
      && data[..start] == host
      && data[start..start + |head|] == head
      && data[start + |head|..start + |head| + |payload|] == payload
      && data[start + |head| + |payload|..start + |head| + |payload| + |END_IDENTIFIER|] == END_IDENTIFIER
  {
    var data := host + (head + payload + END_IDENTIFIER) + tail;
    assert data == host + head + payload + END_IDENTIFIER + tail;
  }

  /** The length prefix and the magic of a header placed at `start` are in the file. */
  lemma HeadBytes(data: seq<Byte>, start: nat, head: seq<Byte>)
    requires |head| == HEAD_LEN && start + HEAD_LEN <= |data| && data[start..start + HEAD_LEN] == head
    requires head[..MAGIC_OFFSET] == MAGIC_PREFIX && head[MAGIC_OFFSET..MAGIC_OFFSET + |MAGIC|] == MAGIC
    ensures data[start..start + MAGIC_OFFSET] == MAGIC_PREFIX
    ensures data[start + MAGIC_OFFSET..start + MAGIC_OFFSET + |MAGIC|] == MAGIC
  {
    SliceOfSlice(data, start, HEAD_LEN, 0, MAGIC_OFFSET);
    SliceOfSlice(data, start, HEAD_LEN, MAGIC_OFFSET, MAGIC_OFFSET + |MAGIC|);
  }

  /** A slice of a slice is a slice. */
  lemma SliceOfSlice(data: seq<Byte>, start: nat, len: nat, i: nat, j: nat)
    requires i <= j <= len && start + len <= |data|
    ensures data[start..start + len][i..j] == data[start + i..start + j]
  {
    var s := data[start..start + len];
    assert forall k :: i <= k < j ==> s[k] == data[start + k];
    assert s[i..j] == data[start + i..start + j];
  }

  /**
   * No magic in the host, and the length prefix after it: no magic starts before
   * the header's own. The prefix bytes 16 and 0 occur nowhere in the magic, so no
   * occurrence can reach into it from the host, and none can start inside it.
   */
  lemma MagicFree(data: seq<Byte>, host: seq<Byte>, start: nat)
    requires |host| == start && start + MAGIC_OFFSET <= |data| && data[..start] == host
    requires Util.NoMatchIn(host, MAGIC, 0, |host|) && data[start..start + MAGIC_OFFSET] == MAGIC_PREFIX
    ensures Util.NoMatchIn(data, MAGIC, 0, start + MAGIC_OFFSET)
  {
    forall j | 0 <= j < start + MAGIC_OFFSET
      ensures !Util.MatchAt(data, MAGIC, j)
    {
      if j + |MAGIC| <= |data| {
        var w := data[j..j + |MAGIC|];
        if j + |MAGIC| <= start {
          SliceOfSlice(data, 0, start, j, j + |MAGIC|);
          assert !Util.MatchAt(host, MAGIC, j);
        } else if j <= start {
          assert w[start - j] == data[start] == data[start..start + MAGIC_OFFSET][0] == 16;
          assert MAGIC[start - j] != 16;
        } else {
          assert w[0] == data[j] == data[start..start + MAGIC_OFFSET][j - start] == 0;
        }
      }
    }
  }

  /** The payload and `ODEND` follow the header at `start`, within a `u64` offset. */
  predicate Stored(data: seq<Byte>, start: nat, payload: seq<Byte>)
  {
    && start + HEAD_LEN + |payload| + |END_IDENTIFIER| <= |data| && start + HEAD_LEN + |payload| <= U64_MAX
    && data[start + HEAD_LEN..start + HEAD_LEN + |payload|] == payload
    && data[start + HEAD_LEN + |payload|..start + HEAD_LEN + |payload| + |END_IDENTIFIER|] == END_IDENTIFIER
  }

  /** A payload the copy loop reads back whole: no `ODEND` in it, none across a chunk. */
  predicate CopySafe(payload: seq<Byte>)
  {
    Util.NoMatchIn(payload, END_IDENTIFIER, 0, |payload|) && |payload| % BUFFER_SIZE + |END_IDENTIFIER| <= BUFFER_SIZE
  }

  /** A header of the current version whose `Length` and `Size` both give `n`. */
  predicate Describes(h: ResourceHead, n: nat)
  {
    && h.version == VERSION
    && Numbers.ParseUnsigned(h.length, U64_MAX) == Some(n)
    && Numbers.ParseUnsigned(Text.Trim(h.size), U64_MAX) == Some(n)
  }

  /** The scan of `exportResource` stops at a header at `start` when no magic starts before its own. */
  lemma ScanPart(data: seq<Byte>, start: nat, h: ResourceHead, id: string) returns (chunk: seq<Byte>)
    requires start + MAGIC_OFFSET + |MAGIC| <= |data| && Util.NoMatchIn(data, MAGIC, 0, start + MAGIC_OFFSET)
    requires data[start + MAGIC_OFFSET..start + MAGIC_OFFSET + |MAGIC|] == MAGIC
    requires (start + MAGIC_OFFSET) % BUFFER_SIZE + |MAGIC| <= BUFFER_SIZE
    requires HeaderAt(data, start, h) && Text.Trim(h.id) == id
    ensures |chunk| == BUFFER_SIZE && ExportOf(data, id) == ExportFound(data, start, h, chunk)
  {
    chunk := ExportReaches(data, start, h, id);
    ScanDone(data, id, start, h, chunk);
  }

  /** After the scan, a record whose header describes its payload is exported whole. */
  lemma FoundPart(data: seq<Byte>, start: nat, h: ResourceHead, chunk: seq<Byte>, payload: seq<Byte>)
    requires |chunk| == BUFFER_SIZE && Stored(data, start, payload) && CopySafe(payload) && Describes(h, |payload|)
    ensures ExportFound(data, start, h, chunk) == Export(Ok(()), Some(payload))
  {
    StoredFacts(data, start, payload);
    CopyRecord(data, start, h, chunk, payload);
    GateRecord(data, start, h, chunk, payload);
  }

  /**
   * A file holding, at `start`, a current header whose `Id` trims to `id`, with
   * the payload and `ODEND` after it, its magic within one chunk, and no magic
   * starting before its own.
   */
  ghost predicate ExportsAt(data: seq<Byte>, start: nat, h: ResourceHead, payload: seq<Byte>, id: string)
  {
    Located(data, start, h, payload) && Fits(start, h, payload, id)
  }

  /** The header decodes at `start`, the payload and `ODEND` follow, and no magic starts before its own. */
  ghost predicate Located(data: seq<Byte>, start: nat, h: ResourceHead, payload: seq<Byte>)
  {
    && HeaderAt(data, start, h) && Stored(data, start, payload)
    && Util.NoMatchIn(data, MAGIC, 0, start + MAGIC_OFFSET)
    && start + MAGIC_OFFSET + |MAGIC| <= |data|
    && data[start + MAGIC_OFFSET..start + MAGIC_OFFSET + |MAGIC|] == MAGIC
  }

  /** The header describes the payload under `id`, and the magic and the copy stay within chunks. */
  predicate Fits(start: nat, h: ResourceHead, payload: seq<Byte>, id: string)
  {
    && Text.Trim(h.id) == id && Describes(h, |payload|) && CopySafe(payload)
    && (start + MAGIC_OFFSET) % BUFFER_SIZE + |MAGIC| <= BUFFER_SIZE
  }

  /** `exportResource` on such a file succeeds and writes exactly the payload. */
  lemma ExportRecordAt(data: seq<Byte>, start: nat, h: ResourceHead, payload: seq<Byte>, id: string)
    requires ExportsAt(data, start, h, payload, id)
    ensures ExportOf(data, id) == Export(Ok(()), Some(payload))
  {
    var chunk := ScanPart(data, start, h, id);
    FoundPart(data, start, h, chunk, payload);
  }

  // ------------------------------------------------- exportResource rejecting

  /** The scan of `exportResource` for `id` stops at the header `h` at `start`, as `ScanPart` needs. */
  ghost predicate ScanStops(data: seq<Byte>, start: nat, h: ResourceHead, id: string)
  {
    && start + MAGIC_OFFSET + |MAGIC| <= |data| && Util.NoMatchIn(data, MAGIC, 0, start + MAGIC_OFFSET)
    && data[start + MAGIC_OFFSET..start + MAGIC_OFFSET + |MAGIC|] == MAGIC
    && (start + MAGIC_OFFSET) % BUFFER_SIZE + |MAGIC| <= BUFFER_SIZE
    && HeaderAt(data, start, h) && Text.Trim(h.id) == id
  }

  /**
   * `exportResource` compares the trimmed stored `Id` with the `Id` asked for as
   * given: asked with whitespace at either end, it finds nothing and writes nothing.
   */
  lemma ExportUntrimmed(data: seq<Byte>, id: string)
    requires !Text.Trimmed(id)
    ensures ExportOf(data, id).result.Err? && ExportOf(data, id).output.None?
  {
    var r := ExportScan(data, 0, Zeros(), 0, id);
    if r.Matched? {
      Text.TrimIsTrimmed(r.h.id);
    }
  }

  /**
   * The version check of `exportResource` on the header it stops at: an older
   * version asks for an upgrade, a newer one for a downgrade, both with no output,
   * and a version the comparison cannot read panics. For a valid version each
   * error comes exactly when the version is older than 1.0.0, or newer.
   */
  lemma ExportVersionChecked(data: seq<Byte>, start: nat, h: ResourceHead, id: string)
    requires ScanStops(data, start, h, id)
    ensures Util.VersionCompare(h.version, VERSION).None? ==> ExportOf(data, id) == Export(Err(ScanError.Panic), Option.None)
    ensures Util.VersionCompare(h.version, VERSION) == Some(Less) ==> ExportOf(data, id) == Export(Err(VersionTooOld), Option.None)
    ensures Util.VersionCompare(h.version, VERSION) == Some(Greater) ==> ExportOf(data, id) == Export(Err(VersionTooNew), Option.None)
    ensures Util.ValidVersion(h.version) ==>
      (Util.Compare(Util.Components(h.version).value, [1, 0, 0]) == Less
       <==> ExportOf(data, id) == Export(Err(VersionTooOld), Option.None))
    ensures Util.ValidVersion(h.version) ==>
      (Util.Compare(Util.Components(h.version).value, [1, 0, 0]) == Greater
       <==> ExportOf(data, id) == Export(Err(VersionTooNew), Option.None))
  {
    var chunk := ScanPart(data, start, h, id);
    GateVersions(data, start, h);
    FoundRejects(data, start, h, chunk, ScanError.Panic);
    FoundRejects(data, start, h, chunk, VersionTooOld);
    FoundRejects(data, start, h, chunk, VersionTooNew);
    if Util.ValidVersion(h.version) {
      CurrentVersion();
      Util.VersionCompareValid(h.version, VERSION);
    }
  }

  /** Which error the version check gives, from `compareVersion` against the current version. */
  lemma GateVersions(data: seq<Byte>, start: nat, h: ResourceHead)
    requires start + HEAD_LEN <= |data|
    ensures Util.VersionCompare(h.version, VERSION).None? ==> ExportGate(data, start, h) == Err(ScanError.Panic)
    ensures ExportGate(data, start, h) == Err(VersionTooOld) <==> Util.VersionCompare(h.version, VERSION) == Some(Less)
    ensures ExportGate(data, start, h) == Err(VersionTooNew) <==> Util.VersionCompare(h.version, VERSION) == Some(Greater)
  {
  }

  /** `exportResource` ends with error `e` and no output after a match exactly when the checks fail with `e`. */
  lemma FoundRejects(data: seq<Byte>, start: nat, h: ResourceHead, chunk: seq<Byte>, e: ScanError)
    requires start + HEAD_LEN <= |data|
    ensures ExportFound(data, start, h, chunk) == Export(Err(e), Option.None) <==> ExportGate(data, start, h) == Err(e)
  {
    var gate := ExportGate(data, start, h);
    if gate.Ok? {
      CopyWrites(data, gate.value, h, chunk);
    }
  }

  /** The copy always creates the output file. */
  lemma CopyWrites(data: seq<Byte>, from: nat, h: ResourceHead, buf: seq<Byte>)
    requires from <= |data|
    ensures ExportCopy(data, from, h, buf).output.Some?
  {
  }

  /**
   * The checks of `exportResource` after an equal version, on the header it stops
   * at: a `Length` that does not parse, or that reaches past `u64`, panics; a file
   * that ends before `ODEND` would is `UnexpectedEof`; other bytes where `ODEND`
   * should be are `TrailerMissing`. None of them writes output.
   */
  lemma ExportTrailerChecked(data: seq<Byte>, start: nat, h: ResourceHead, id: string)
    requires ScanStops(data, start, h, id) && Util.VersionCompare(h.version, VERSION) == Some(Equal)
    ensures Numbers.ParseUnsigned(h.length, U64_MAX).None? ==> ExportOf(data, id) == Export(Err(ScanError.Panic), Option.None)
    ensures Numbers.ParseUnsigned(h.length, U64_MAX).Some? ==>
      var end := start + HEAD_LEN + Numbers.ParseUnsigned(h.length, U64_MAX).value;
      && (end > U64_MAX ==> ExportOf(data, id) == Export(Err(ScanError.Panic), Option.None))
      && (end <= U64_MAX && end + |END_IDENTIFIER| > |data| ==> ExportOf(data, id) == Export(Err(UnexpectedEof), Option.None))
      && (end <= U64_MAX && end + |END_IDENTIFIER| <= |data| && data[end..end + |END_IDENTIFIER|] != END_IDENTIFIER
          ==> ExportOf(data, id) == Export(Err(TrailerMissing), Option.None))
  {
    var chunk := ScanPart(data, start, h, id);
    GateTrailers(data, start, h);
    FoundRejects(data, start, h, chunk, ScanError.Panic);
    FoundRejects(data, start, h, chunk, UnexpectedEof);
    FoundRejects(data, start, h, chunk, TrailerMissing);
  }

  /** Which error the checks after an equal version give. */
  lemma GateTrailers(data: seq<Byte>, start: nat, h: ResourceHead)
    requires start + HEAD_LEN <= |data| && Util.VersionCompare(h.version, VERSION) == Some(Equal)
    ensures Numbers.ParseUnsigned(h.length, U64_MAX).None? ==> ExportGate(data, start, h) == Err(ScanError.Panic)
    ensures Numbers.ParseUnsigned(h.length, U64_MAX).Some? ==>
      var end := start + HEAD_LEN + Numbers.ParseUnsigned(h.length, U64_MAX).value;
      && (end > U64_MAX ==> ExportGate(data, start, h) == Err(ScanError.Panic))
      && (end <= U64_MAX && end + |END_IDENTIFIER| > |data| ==> ExportGate(data, start, h) == Err(UnexpectedEof))
      && (end <= U64_MAX && end + |END_IDENTIFIER| <= |data| && data[end..end + |END_IDENTIFIER|] != END_IDENTIFIER
          ==> ExportGate(data, start, h) == Err(TrailerMissing))
  {
  }

  /** The copy loop from the end of a header at `start` writes exactly the payload, and the size checks pass. */
  lemma CopyRecord(data: seq<Byte>, start: nat, h: ResourceHead, chunk: seq<Byte>, payload: seq<Byte>)
    requires |chunk| == BUFFER_SIZE && start + HEAD_LEN + |payload| + |END_IDENTIFIER| <= |data|
    requires data[start + HEAD_LEN..start + HEAD_LEN + |payload|] == payload
    requires data[start + HEAD_LEN + |payload|..start + HEAD_LEN + |payload| + |END_IDENTIFIER|] == END_IDENTIFIER
    requires CopySafe(payload) && Numbers.ParseUnsigned(Text.Trim(h.size), U64_MAX) == Some(|payload|)
    ensures ExportCopy(data, start + HEAD_LEN, h, chunk) == Export(Ok(()), Some(payload))
  {
    var from := start + HEAD_LEN;
    CopyPayload(data, from, chunk, [], payload);
    assert CopyOut(data, from, chunk, []) == (payload, false) by {
      assert [] + payload == payload;
    }
    CopyDone(data, from, h, chunk, payload);
  }

  /** What `Stored` says, spelled out. */
  lemma StoredFacts(data: seq<Byte>, start: nat, payload: seq<Byte>)
    requires Stored(data, start, payload)
    ensures start + HEAD_LEN + |payload| + |END_IDENTIFIER| <= |data| && start + HEAD_LEN + |payload| <= U64_MAX
    ensures data[start + HEAD_LEN..start + HEAD_LEN + |payload|] == payload
    ensures data[start + HEAD_LEN + |payload|..start + HEAD_LEN + |payload| + |END_IDENTIFIER|] == END_IDENTIFIER
  {
  }

  /** For a header that describes its stored payload, `exportResource` goes on to the copy. */
  lemma GateRecord(data: seq<Byte>, start: nat, h: ResourceHead, chunk: seq<Byte>, payload: seq<Byte>)
    requires Stored(data, start, payload) && Describes(h, |payload|)
    ensures ExportFound(data, start, h, chunk) == ExportCopy(data, start + HEAD_LEN, h, chunk)
  {
    StoredFacts(data, start, payload);
    GateOpens(data, start, h, |payload|);
    GateDone(data, start, h, chunk);
  }

  /** A copy that writes the payload and stops, for a `Size` that matches, succeeds. */
  lemma CopyDone(data: seq<Byte>, from: nat, h: ResourceHead, buf: seq<Byte>, payload: seq<Byte>)
    requires from <= |data| && CopyOut(data, from, buf, []) == (payload, false)
    requires Numbers.ParseUnsigned(Text.Trim(h.size), U64_MAX) == Some(|payload|)
    ensures ExportCopy(data, from, h, buf) == Export(Ok(()), Some(payload))
  {
  }

  /** Past an open gate, `exportResource` is the copy from the end of the header. */
  lemma GateDone(data: seq<Byte>, start: nat, h: ResourceHead, buf: seq<Byte>)
    requires start + HEAD_LEN <= |data| && ExportGate(data, start, h) == Ok(start + HEAD_LEN)
    ensures ExportFound(data, start, h, buf) == ExportCopy(data, start + HEAD_LEN, h, buf)
  {
  }

  /** A scan that matches hands over to the gate and the copy. */
  lemma ScanDone(data: seq<Byte>, id: string, start: nat, h: ResourceHead, chunk: seq<Byte>)
    requires ExportScan(data, 0, Zeros(), 0, id) == Matched(start, h, chunk)
    ensures ExportOf(data, id) == ExportFound(data, start, h, chunk)
  {
  }

  /** `head` is an encoded header that decodes to `h` and carries the magic after its length prefix. */
  ghost predicate Encoded(head: seq<Byte>, h: ResourceHead)
  {
    && |head| == HEAD_LEN && From(head) == Some(h)
    && head[..MAGIC_OFFSET] == MAGIC_PREFIX && head[MAGIC_OFFSET..MAGIC_OFFSET + |MAGIC|] == MAGIC
  }

  /**
   * A record with header `head` placed after a `host` in which `find_subsequence`
   * finds no magic is where the scan and the copy of `exportResource` find it.
   */
  lemma RecordPlaced(host: seq<Byte>, head: seq<Byte>, h: ResourceHead, payload: seq<Byte>, tail: seq<Byte>)
    requires Util.FindSubsequence(host, MAGIC) == Option.None && Encoded(head, h) && |host| + HEAD_LEN + |payload| <= U64_MAX
    ensures Located(host + (head + payload + END_IDENTIFIER) + tail, |host|, h, payload)
  {
    var data := host + (head + payload + END_IDENTIFIER) + tail;
    RecordBytes(host, head, payload, tail);
    assert data[|host|..|host| + HEAD_LEN] == head;
    assert HeaderAt(data, |host|, h);
  }

  /** The bytes of a record appended after `host`: the payload and `ODEND` follow, and its magic is the first. */
  lemma RecordBytes(host: seq<Byte>, head: seq<Byte>, payload: seq<Byte>, tail: seq<Byte>)
    requires Util.FindSubsequence(host, MAGIC) == Option.None && |host| + HEAD_LEN + |payload| <= U64_MAX
    requires |head| == HEAD_LEN && head[..MAGIC_OFFSET] == MAGIC_PREFIX && head[MAGIC_OFFSET..MAGIC_OFFSET + |MAGIC|] == MAGIC
    ensures var data := host + (head + payload + END_IDENTIFIER) + tail; var start := |host|;
      && data[start..start + HEAD_LEN] == head && Stored(data, start, payload)
      && Util.NoMatchIn(data, MAGIC, 0, start + MAGIC_OFFSET)
      && start + MAGIC_OFFSET + |MAGIC| <= |data|
      && data[start + MAGIC_OFFSET..start + MAGIC_OFFSET + |MAGIC|] == MAGIC
  {
    var data := host + (head + payload + END_IDENTIFIER) + tail;
    Placed(host, head, payload, tail);
    HeadBytes(data, |host|, head);
    MagicFree(data, host, |host|);
  }

  /**
   * `addResource` then `exportResource`: a record appended to a file whose
   * existing bytes hold no copy of the magic is exported back byte for byte,
   * whatever follows it, when its magic lies within one 8 KiB chunk of the file,
   * its payload holds no `ODEND`, and `ODEND` does not cross a chunk of the copy.
   */
  lemma ExportRoundTrip(host: seq<Byte>, payload: seq<Byte>, id: string, name: string, compressed: bool, tail: seq<Byte>)
    requires Appended(payload, id, name, compressed).Ok? && Text.Trimmed(id)
    requires Util.FindSubsequence(host, MAGIC) == Option.None
    requires (|host| + MAGIC_OFFSET) % BUFFER_SIZE + |MAGIC| <= BUFFER_SIZE
    requires CopySafe(payload) && |host| + HEAD_LEN + |payload| <= U64_MAX
    ensures ExportOf(host + Appended(payload, id, name, compressed).value + tail, id) == Export(Ok(()), Some(payload))
  {
    var h := New(id, |payload|, |payload|, name, ModeOf(compressed));
    var head := AppendedHead(payload, id, name, compressed, h);
    RecordPlaced(host, head, h, payload, tail);
    ExportRecordAt(host + (head + payload + END_IDENTIFIER) + tail, |host|, h, payload, id);
  }

  /** What `addResource` appends, with the facts about its header the export needs. */
  lemma AppendedHead(payload: seq<Byte>, id: string, name: string, compressed: bool, h: ResourceHead)
    returns (head: seq<Byte>)
    requires Appended(payload, id, name, compressed).Ok?
    requires h == New(id, |payload|, |payload|, name, ModeOf(compressed))
    ensures Appended(payload, id, name, compressed).value == head + payload + END_IDENTIFIER
    ensures Encoded(head, h) && Describes(h, |payload|) && (Text.Trimmed(id) ==> Text.Trim(h.id) == id)
  {
    head := ToBytes(h);
    PrefixOfMagic(h);
    AppendedSucceeds(payload, id, name, compressed);
    NewHeader(id, |payload|, name, ModeOf(compressed));
    AppendedWith(payload, id, name, compressed, head);
  }

  // -------------------------------------------------- getResourceList on a record

  /**
   * A pass whose magic points at bytes that do not decode as a header ends
   * `getResourceList` with `BadHeader`, whatever it had collected.
   */
  lemma ListUndecodable(data: seq<Byte>, pos: nat, buf: seq<Byte>, count: nat, configs: seq<ResourceHead>, size: nat, start: nat)
    requires pos <= |data| && |buf| == BUFFER_SIZE
    requires Util.FindSubsequence(ReadInto(data, pos, buf).1, MAGIC) == Some(size)
    requires HeaderStart(count + 1, size) == Some(start) && start + HEAD_LEN <= |data|
    requires From(data[start..start + HEAD_LEN]) == Option.None
    ensures ListScan(data, pos, buf, count, configs) == Err(BadHeader)
  {
    var chunk := ReadInto(data, pos, buf).1;
    assert ProbeAt(data, pos, buf, count + 1) == (Undecodable(start), chunk);
    ListPass(data, pos, buf, count, configs, Undecodable(start), chunk);
  }

  /**
   * `getResourceList` on a file whose first magic lies in its first chunk and
   * heads bytes that do not decode: `BadHeader`.
   */
  lemma ListOfUndecodable(data: seq<Byte>, start: nat)
    requires start + MAGIC_OFFSET + |MAGIC| <= BUFFER_SIZE && start + HEAD_LEN <= |data|
    requires Util.NoMatchIn(data, MAGIC, 0, start + MAGIC_OFFSET)
    requires data[start + MAGIC_OFFSET..start + MAGIC_OFFSET + |MAGIC|] == MAGIC
    requires From(data[start..start + HEAD_LEN]) == Option.None
    ensures ListOf(data) == Err(BadHeader)
  {
    MagicProbe(data, 0, 0, Zeros(), start + MAGIC_OFFSET, start);
    ListUndecodable(data, 0, Zeros(), 0, [], start + MAGIC_OFFSET, start);
  }

  /**
   * `addResource` then `getResourceList`: a record appended to a file holding no
   * copy of the magic, the whole under 8192 bytes, is listed as its header alone.
   */
  lemma ListRoundTrip(host: seq<Byte>, payload: seq<Byte>, id: string, name: string, compressed: bool)
    requires Appended(payload, id, name, compressed).Ok?
    requires Util.FindSubsequence(host, MAGIC) == Option.None
    requires |host| + |Appended(payload, id, name, compressed).value| < BUFFER_SIZE
    ensures ListOf(host + Appended(payload, id, name, compressed).value)
      == Ok([New(id, |payload|, |payload|, name, ModeOf(compressed))])
  {
    var h := New(id, |payload|, |payload|, name, ModeOf(compressed));
    var head := AppendedHead(payload, id, name, compressed, h);
    var record := head + payload + END_IDENTIFIER;
    RecordPlaced(host, head, h, payload, []);
    assert host + record + [] == host + record;
    ListOneAt(host + record, |host|, h);
  }

  /** A file shorter than one chunk whose first magic heads a header `h` lists `h` alone. */
  lemma ListOneAt(data: seq<Byte>, start: nat, h: ResourceHead)
    requires |data| < BUFFER_SIZE && HeaderAt(data, start, h)
    requires start + MAGIC_OFFSET + |MAGIC| <= |data| && Util.NoMatchIn(data, MAGIC, 0, start + MAGIC_OFFSET)
    requires data[start + MAGIC_OFFSET..start + MAGIC_OFFSET + |MAGIC|] == MAGIC
    ensures ListOf(data) == Ok([h])
  {
    var n, chunk := OnlyRead(data, start, h);
    ListPass(data, 0, Zeros(), 0, [], Found(start, h, n, n), chunk);
    assert [] + [h] == [h];
  }

  /** The first read of a file shorter than one chunk takes it whole and finds the header at `start`. */
  lemma OnlyRead(data: seq<Byte>, start: nat, h: ResourceHead) returns (n: nat, chunk: seq<Byte>)
    requires |data| < BUFFER_SIZE && HeaderAt(data, start, h)
    requires start + MAGIC_OFFSET + |MAGIC| <= |data| && Util.NoMatchIn(data, MAGIC, 0, start + MAGIC_OFFSET)
    requires data[start + MAGIC_OFFSET..start + MAGIC_OFFSET + |MAGIC|] == MAGIC
    ensures n == |data| && ProbeAt(data, 0, Zeros(), 1) == (Found(start, h, n, n), chunk)
  {
    MagicProbe(data, 0, 0, Zeros(), start + MAGIC_OFFSET, start);
    n, chunk := ProbeFoundAt(data, 0, Zeros(), 1, start + MAGIC_OFFSET, start, h);
    assert n == ReadInto(data, 0, Zeros()).0;
  }
}
