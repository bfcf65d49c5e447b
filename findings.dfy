/**
 * Two places where the scan and copy loops of `exportResource` and
 * `getResourceList` do not do what they evidently mean to, each shown on an
 * input, next to a corrected definition with the intended property proved.
 *
 * 1. `getResourceList` searches the whole buffer after every read, including the
 *    bytes a short last read did not overwrite. A file that is a single record of
 *    8192 to 8200 bytes makes it find the first chunk's magic a second time, in
 *    the wrong chunk, and fail with `UnexpectedEof`. Searching only the bytes just
 *    read lists the record.
 * 2. The copy loop of `exportResource` stops only when a read leaves `ODEND` in
 *    the buffer. When `ODEND` is split across two reads it never does, and at the
 *    end of the file the loop spins forever. Copying exactly `Length` bytes, which
 *    the checks before the copy have already vouched for, exports the payload.
 */
module Findings {
  import opened Types
  import Text
  import opened Record
  import opened RecordFacts
  import opened Files
  import opened Scan
  import opened ScanFacts
  import opened Append
  import opened RoundTrip
  import Util
  import Numbers

  // ------------------------------------------------- getResourceList, stale bytes

  /** A magic at an index below its length is the first one: 0x89 occurs in it only at its head. */
  lemma MagicAlone(chunk: seq<Byte>, s: nat)
    requires s < |MAGIC| && Util.MatchAt(chunk, MAGIC, s)
    ensures Util.FindSubsequence(chunk, MAGIC) == Some(s)
  {
    forall j | 0 <= j < s
      ensures !Util.MatchAt(chunk, MAGIC, j)
    {
      assert chunk[s] == chunk[s..s + |MAGIC|][0] == 0x89 != MAGIC[s - j];
    }
    Util.FindFirst(chunk, MAGIC, s);
  }

  /**
   * A pass of the scan as evidently intended: like `ProbeAt`, but the magic is
   * searched for only among the `n` bytes the read returned.
   */
  function ProbeFresh(data: seq<Byte>, pos: nat, buf: seq<Byte>, count: nat): (r: (Probe, seq<Byte>))
    requires count >= 1 && pos <= |data|
    ensures |r.1| == |buf| && ProbeFits(data, pos, count, r.0)
    ensures r.1 == ReadInto(data, pos, buf).1
    ensures (r.0.Miss? || r.0.Found?) ==> r.0.n == ReadInto(data, pos, buf).0
  {
    var (n, chunk) := ReadInto(data, pos, buf);
    match Util.FindSubsequence(chunk[..n], MAGIC)
    case None => (Miss(n), chunk)
    case Some(size) => (ProbeHit(data, count, size, n, pos + n), chunk)
  }

  /** The loop of `getResourceList` with the corrected pass. */
  function ListScanFresh(data: seq<Byte>, pos: nat, buf: seq<Byte>, count: nat, configs: seq<ResourceHead>)
    : Result<seq<ResourceHead>, ScanError>
    requires pos <= |data| && |buf| == BUFFER_SIZE
    decreases |data| - pos
  {
    var (probe, chunk) := ProbeFresh(data, pos, buf, count + 1);
    match ListNext(data, pos, count + 1, probe, configs)
    case Done(r) => r
    case Again(next, collected) => ListScanFresh(data, next, chunk, count + 1, collected)
  }

  /** `getResourceList` with the corrected pass. */
  function ListOfFresh(data: seq<Byte>): Result<seq<ResourceHead>, ScanError>
  {
    ListScanFresh(data, 0, Zeros(), 0, [])
  }

  /** The first read of a file that begins with an encoded header holds its magic at `MAGIC_OFFSET`. */
  lemma FirstChunk(data: seq<Byte>, head: seq<Byte>, h: ResourceHead) returns (n: nat, chunk: seq<Byte>)
    requires Encoded(head, h) && |head| <= |data| && data[..HEAD_LEN] == head
    ensures (n, chunk) == ReadInto(data, 0, Zeros()) && HEAD_LEN <= n && |chunk| == BUFFER_SIZE
    ensures n == BUFFER_SIZE <==> BUFFER_SIZE <= |data|
    ensures Util.FindSubsequence(chunk, MAGIC) == Some(MAGIC_OFFSET)
    ensures Util.FindSubsequence(chunk[..n], MAGIC) == Some(MAGIC_OFFSET)
    ensures HeaderStart(1, MAGIC_OFFSET) == Some(0) && ReadExactAt(data, 0, HEAD_LEN) == Some(head)
  {
    n, chunk := ReadInto(data, 0, Zeros()).0, ReadInto(data, 0, Zeros()).1;
    var e := MAGIC_OFFSET + |MAGIC|;
    assert chunk[..n][..HEAD_LEN] == head;
    SliceOfSlice(chunk[..n], 0, HEAD_LEN, MAGIC_OFFSET, e);
    SliceOfSlice(chunk, 0, n, MAGIC_OFFSET, e);
    MagicAlone(chunk, MAGIC_OFFSET);
    MagicAlone(chunk[..n], MAGIC_OFFSET);
  }

  /** The first pass as written finds the header at 0. */
  lemma FirstProbe(data: seq<Byte>, head: seq<Byte>, h: ResourceHead) returns (n: nat, chunk: seq<Byte>)
    requires Encoded(head, h) && |head| <= |data| && data[..HEAD_LEN] == head
    ensures |chunk| == BUFFER_SIZE && HEAD_LEN <= n <= |data| && (n == BUFFER_SIZE <==> BUFFER_SIZE <= |data|)
    ensures ProbeAt(data, 0, Zeros(), 1) == (Found(0, h, n, n), chunk)
    ensures Util.MatchAt(chunk, MAGIC, MAGIC_OFFSET)
  {
    n, chunk := FirstChunk(data, head, h);
  }

  /** The corrected first pass finds the header at 0 too. */
  lemma FirstFresh(data: seq<Byte>, head: seq<Byte>, h: ResourceHead) returns (n: nat, chunk: seq<Byte>)
    requires Encoded(head, h) && |head| <= |data| && data[..HEAD_LEN] == head
    ensures |chunk| == BUFFER_SIZE && HEAD_LEN <= n <= |data| && (n == BUFFER_SIZE <==> BUFFER_SIZE <= |data|)
    ensures ProbeFresh(data, 0, Zeros(), 1) == (Found(0, h, n, n), chunk)
  {
    n, chunk := FirstChunk(data, head, h);
  }

  /**
   * The second read of a file of 8192 to 8200 bytes leaves the first chunk's
   * magic in place, so the pass as written looks for a header past the end.
   */
  lemma StaleProbe(data: seq<Byte>, chunk: seq<Byte>) returns (next: seq<Byte>)
    requires BUFFER_SIZE <= |data| <= BUFFER_SIZE + MAGIC_OFFSET
    requires |chunk| == BUFFER_SIZE && Util.MatchAt(chunk, MAGIC, MAGIC_OFFSET)
    ensures ProbeAt(data, BUFFER_SIZE, chunk, 2) == (Fail(UnexpectedEof), next)
  {
    var (n, c) := ReadInto(data, BUFFER_SIZE, chunk);
    next := c;
    assert c[n..] == chunk[n..];
    SliceOfSlice(c, n, BUFFER_SIZE - n, MAGIC_OFFSET - n, MAGIC_OFFSET - n + |MAGIC|);
    SliceOfSlice(chunk, n, BUFFER_SIZE - n, MAGIC_OFFSET - n, MAGIC_OFFSET - n + |MAGIC|);
    MagicAlone(c, MAGIC_OFFSET);
  }

  /** The corrected second pass over at most 8 fresh bytes finds nothing and stops. */
  lemma FreshMiss(data: seq<Byte>, chunk: seq<Byte>) returns (n: nat, next: seq<Byte>)
    requires BUFFER_SIZE <= |data| <= BUFFER_SIZE + MAGIC_OFFSET && |chunk| == BUFFER_SIZE
    ensures ProbeFresh(data, BUFFER_SIZE, chunk, 2) == (Miss(n), next) && n < BUFFER_SIZE
  {
    var r := ReadInto(data, BUFFER_SIZE, chunk);
    n, next := r.0, r.1;
    assert |next[..n]| < |MAGIC|;
  }

  /** One pass of the corrected loop of `getResourceList`, given its probe. */
  lemma FreshPass(data: seq<Byte>, pos: nat, buf: seq<Byte>, count: nat, configs: seq<ResourceHead>, probe: Probe, chunk: seq<Byte>)
    requires pos <= |data| && |buf| == BUFFER_SIZE && ProbeFresh(data, pos, buf, count + 1) == (probe, chunk)
    ensures |chunk| == BUFFER_SIZE && ProbeFits(data, pos, count + 1, probe)
    ensures var step := ListNext(data, pos, count + 1, probe, configs);
      && (step.Done? ==> ListScanFresh(data, pos, buf, count, configs) == step.result)
      && (step.Again? ==> ListScanFresh(data, pos, buf, count, configs) == ListScanFresh(data, step.pos, chunk, count + 1, step.state))
  {
  }

  /** As written, on a file that begins with an encoded header and is 8192 to 8200 bytes long. */
  lemma ListStaleAt(data: seq<Byte>, head: seq<Byte>, h: ResourceHead)
    requires Encoded(head, h) && |head| <= |data| && data[..HEAD_LEN] == head
    requires BUFFER_SIZE <= |data| <= BUFFER_SIZE + MAGIC_OFFSET
    ensures ListOf(data) == Err(UnexpectedEof)
  {
    var n, chunk := FirstProbe(data, head, h);
    StaleFirst(data, h, chunk);
    StaleSecond(data, chunk, [h]);
  }

  /** The first pass as written collects the header at 0 and goes on. */
  lemma StaleFirst(data: seq<Byte>, h: ResourceHead, chunk: seq<Byte>)
    requires ProbeAt(data, 0, Zeros(), 1) == (Found(0, h, BUFFER_SIZE, BUFFER_SIZE), chunk)
    ensures ListOf(data) == ListScan(data, BUFFER_SIZE, chunk, 1, [h])
  {
    ListPass(data, 0, Zeros(), 0, [], Found(0, h, BUFFER_SIZE, BUFFER_SIZE), chunk);
    assert [] + [h] == [h];
  }

  /** The second pass as written over a file of 8192 to 8200 bytes fails. */
  lemma StaleSecond(data: seq<Byte>, chunk: seq<Byte>, configs: seq<ResourceHead>)
    requires BUFFER_SIZE <= |data| <= BUFFER_SIZE + MAGIC_OFFSET
    requires |chunk| == BUFFER_SIZE && Util.MatchAt(chunk, MAGIC, MAGIC_OFFSET)
    ensures ListScan(data, BUFFER_SIZE, chunk, 1, configs) == Err(UnexpectedEof)
  {
    var next := StaleProbe(data, chunk);
    ListPass(data, BUFFER_SIZE, chunk, 1, configs, Fail(UnexpectedEof), next);
  }

  /** Corrected, on a file that begins with an encoded header and is at most 8200 bytes long. */
  lemma ListFreshAt(data: seq<Byte>, head: seq<Byte>, h: ResourceHead)
    requires Encoded(head, h) && |head| <= |data| && data[..HEAD_LEN] == head
    requires |data| <= BUFFER_SIZE + MAGIC_OFFSET
    ensures ListOfFresh(data) == Ok([h])
  {
    var n, chunk := FirstFresh(data, head, h);
    FreshFirst(data, h, n, chunk);
    if n == BUFFER_SIZE {
      FreshSecond(data, chunk, [h]);
    }
  }

  /** The corrected first pass collects the header at 0, and goes on after a full read. */
  lemma FreshFirst(data: seq<Byte>, h: ResourceHead, n: nat, chunk: seq<Byte>)
    requires ProbeFresh(data, 0, Zeros(), 1) == (Found(0, h, n, n), chunk) && n <= BUFFER_SIZE
    ensures n < BUFFER_SIZE ==> ListOfFresh(data) == Ok([h])
    ensures n == BUFFER_SIZE ==> ListOfFresh(data) == ListScanFresh(data, BUFFER_SIZE, chunk, 1, [h])
  {
    FreshPass(data, 0, Zeros(), 0, [], Found(0, h, n, n), chunk);
    assert [] + [h] == [h];
  }

  /** The corrected second pass over a file of 8192 to 8200 bytes ends the loop with what it has. */
  lemma FreshSecond(data: seq<Byte>, chunk: seq<Byte>, configs: seq<ResourceHead>)
    requires BUFFER_SIZE <= |data| <= BUFFER_SIZE + MAGIC_OFFSET && |chunk| == BUFFER_SIZE
    ensures ListScanFresh(data, BUFFER_SIZE, chunk, 1, configs) == Ok(configs)
  {
    var m, next := FreshMiss(data, chunk);
    FreshPass(data, BUFFER_SIZE, chunk, 1, configs, Miss(m), next);
  }

  /**
   * As written: `getResourceList` on a file that is one record of 8192 to 8200
   * bytes fails with `UnexpectedEof` instead of listing the record.
   */
  lemma ListStale(payload: seq<Byte>, id: string, name: string, compressed: bool)
    requires Appended(payload, id, name, compressed).Ok?
    requires BUFFER_SIZE <= |Appended(payload, id, name, compressed).value| <= BUFFER_SIZE + MAGIC_OFFSET
    ensures ListOf(Appended(payload, id, name, compressed).value) == Err(UnexpectedEof)
  {
    var h := New(id, |payload|, |payload|, name, ModeOf(compressed));
    var head := AppendedHead(payload, id, name, compressed, h);
    HeadFirst(head, payload);
    ListStaleAt(head + payload + END_IDENTIFIER, head, h);
  }

  /**
   * Corrected: `getResourceList` on a file that is one record of at most 8200
   * bytes lists exactly that record's header.
   */
  lemma ListFreshOne(payload: seq<Byte>, id: string, name: string, compressed: bool)
    requires Appended(payload, id, name, compressed).Ok?
    requires |Appended(payload, id, name, compressed).value| <= BUFFER_SIZE + MAGIC_OFFSET
    ensures ListOfFresh(Appended(payload, id, name, compressed).value) == Ok([New(id, |payload|, |payload|, name, ModeOf(compressed))])
  {
    var h := New(id, |payload|, |payload|, name, ModeOf(compressed));
    var head := AppendedHead(payload, id, name, compressed, h);
    HeadFirst(head, payload);
    ListFreshAt(head + payload + END_IDENTIFIER, head, h);
  }

  lemma HeadFirst(head: seq<Byte>, payload: seq<Byte>)
    ensures (head + payload + END_IDENTIFIER)[..|head|] == head
  {
    assert head + payload + END_IDENTIFIER == head + (payload + END_IDENTIFIER);
  }

  // ------------------------------------------ exportResource, ODEND across reads

  /**
   * The first read of a payload that ends 1 to 4 bytes before a chunk boundary
   * holds the payload's end and only the start of `ODEND`: no `ODEND` in it.
   */
  lemma StraddleFirst(data: seq<Byte>, p: nat, buf: seq<Byte>, w: seq<Byte>, payload: seq<Byte>)
    returns (chunk: seq<Byte>, k: nat)
    requires |buf| == BUFFER_SIZE && |payload| < BUFFER_SIZE < |payload| + |END_IDENTIFIER|
    requires |data| == p + |payload| + |END_IDENTIFIER|
    requires data[p..p + |payload|] == payload && data[p + |payload|..] == END_IDENTIFIER
    requires Util.NoMatchIn(payload, END_IDENTIFIER, 0, |payload|)
    ensures 1 <= k < |END_IDENTIFIER| && chunk == payload + END_IDENTIFIER[..k] && |chunk| == BUFFER_SIZE
    ensures Util.NoMatchIn(chunk, END_IDENTIFIER, 0, |chunk|) && data[p + BUFFER_SIZE..] == END_IDENTIFIER[k..]
    ensures CopyOut(data, p, buf, w) == CopyOut(data, p + BUFFER_SIZE, chunk, w + chunk)
  {
    k := BUFFER_SIZE - |payload|;
    chunk := data[p..p + BUFFER_SIZE];
    assert data[p..] == payload + END_IDENTIFIER;
    assert chunk == payload + END_IDENTIFIER[..k];
    forall j | 0 <= j < BUFFER_SIZE
      ensures !Util.MatchAt(chunk, END_IDENTIFIER, j)
    {
      if j + 5 <= |payload| {
        assert chunk[j..j + 5] == payload[j..j + 5];
        assert !Util.MatchAt(payload, END_IDENTIFIER, j);
      } else if j + 5 <= BUFFER_SIZE {
        assert chunk[|payload|] == 0x4F;
        assert chunk[j..j + 5][|payload| - j] == chunk[|payload|];
      }
    }
    CopyFull(data, p, buf, w);
  }

  /**
   * The reads after it: the rest of `ODEND` lands at the front of a buffer whose
   * other bytes held no `ODEND` either, so the loop writes it and then reads
   * nothing forever.
   */
  lemma StraddleRest(data: seq<Byte>, q: nat, chunk: seq<Byte>, w: seq<Byte>, k: nat)
    requires 1 <= k < |END_IDENTIFIER| && |chunk| == BUFFER_SIZE && Util.NoMatchIn(chunk, END_IDENTIFIER, 0, |chunk|)
    requires q <= |data| && data[q..] == END_IDENTIFIER[k..]
    ensures CopyOut(data, q, chunk, w) == (w + END_IDENTIFIER[k..], true)
  {
    var (n, next) := ReadInto(data, q, chunk);
    assert n == 5 - k && next[..n] == END_IDENTIFIER[k..] && next[n..] == chunk[n..];
    forall j | 0 <= j < |next|
      ensures !Util.MatchAt(next, END_IDENTIFIER, j)
    {
      if j < n {
        assert next[j] == END_IDENTIFIER[k + j] != 0x4F;
        assert j + 5 <= |next| ==> next[j..j + 5][0] == next[j];
      } else if j + 5 <= |next| {
        assert next[j..j + 5] == chunk[j..j + 5];
        assert !Util.MatchAt(chunk, END_IDENTIFIER, j);
      }
    }
    CopyOutStep(data, q, chunk, w, n, next);
    var (m, last) := ReadInto(data, q + n, next);
    assert m == 0 && last == next;
    CopyOutStep(data, q + n, next, w + next[..n], m, last);
  }

  /**
   * As written: the copy loop over a payload with no `ODEND` whose length modulo
   * 8192 is 8188 to 8191, at the end of the file, writes the payload and `ODEND`
   * and never returns.
   */
  lemma {:induction false} CopyStraddle(data: seq<Byte>, p: nat, buf: seq<Byte>, w: seq<Byte>, payload: seq<Byte>)
    requires |buf| == BUFFER_SIZE && |data| == p + |payload| + |END_IDENTIFIER|
    requires data[p..p + |payload|] == payload && data[p + |payload|..] == END_IDENTIFIER
    requires Util.NoMatchIn(payload, END_IDENTIFIER, 0, |payload|)
    requires |payload| % BUFFER_SIZE + |END_IDENTIFIER| > BUFFER_SIZE
    ensures CopyOut(data, p, buf, w) == (w + payload + END_IDENTIFIER, true)
    decreases |payload|
  {
    if |payload| >= BUFFER_SIZE {
      var first, rest := PayloadChunk(data, p, buf, w, payload);
      assert |rest| % BUFFER_SIZE == |payload| % BUFFER_SIZE;
      assert data[p + BUFFER_SIZE + |rest|..] == END_IDENTIFIER;
      CopyStraddle(data, p + BUFFER_SIZE, first, w + first, rest);
      assert w + first + rest == w + payload;
    } else {
      StraddleLast(data, p, buf, w, payload);
    }
  }

  /** The last 1 to 4 bytes of a chunk hold the start of `ODEND`: the loop writes it all and spins. */
  lemma StraddleLast(data: seq<Byte>, p: nat, buf: seq<Byte>, w: seq<Byte>, payload: seq<Byte>)
    requires |buf| == BUFFER_SIZE && |payload| < BUFFER_SIZE < |payload| + |END_IDENTIFIER|
    requires |data| == p + |payload| + |END_IDENTIFIER|
    requires data[p..p + |payload|] == payload && data[p + |payload|..] == END_IDENTIFIER
    requires Util.NoMatchIn(payload, END_IDENTIFIER, 0, |payload|)
    ensures CopyOut(data, p, buf, w) == (w + payload + END_IDENTIFIER, true)
  {
    var chunk, k := StraddleFirst(data, p, buf, w, payload);
    StraddleRest(data, p + BUFFER_SIZE, chunk, w + chunk, k);
    EndRejoined(w, chunk, payload, k);
  }

  /** The two halves of a split `ODEND` written one after the other make it whole. */
  lemma EndRejoined(w: seq<Byte>, chunk: seq<Byte>, payload: seq<Byte>, k: nat)
    requires k <= |END_IDENTIFIER| && chunk == payload + END_IDENTIFIER[..k]
    ensures w + chunk + END_IDENTIFIER[k..] == w + payload + END_IDENTIFIER
  {
    assert END_IDENTIFIER[..k] + END_IDENTIFIER[k..] == END_IDENTIFIER;
  }

  /** A payload whose `ODEND`, stored right after it, crosses a chunk of the copy loop. */
  predicate Straddles(payload: seq<Byte>)
  {
    Util.NoMatchIn(payload, END_IDENTIFIER, 0, |payload|) && |payload| % BUFFER_SIZE + |END_IDENTIFIER| > BUFFER_SIZE
  }

  /** As written: from the end of such a header the copy writes the payload and `ODEND` and hangs. */
  lemma CopyHangsAt(data: seq<Byte>, start: nat, h: ResourceHead, chunk: seq<Byte>, payload: seq<Byte>)
    requires |chunk| == BUFFER_SIZE && Stored(data, start, payload) && Straddles(payload)
    requires |data| == start + HEAD_LEN + |payload| + |END_IDENTIFIER|
    ensures ExportCopy(data, start + HEAD_LEN, h, chunk) == Export(Err(Diverges), Some(payload + END_IDENTIFIER))
  {
    StoredFacts(data, start, payload);
    CopyStraddle(data, start + HEAD_LEN, chunk, [], payload);
    assert [] + payload + END_IDENTIFIER == payload + END_IDENTIFIER;
  }

  /**
   * As written: `exportResource` on a file that ends with such a record never
   * returns, having written the payload and `ODEND`.
   */
  lemma ExportStraddleAt(data: seq<Byte>, start: nat, h: ResourceHead, payload: seq<Byte>, id: string)
    requires Located(data, start, h, payload) && Text.Trim(h.id) == id && Describes(h, |payload|)
    requires (start + MAGIC_OFFSET) % BUFFER_SIZE + |MAGIC| <= BUFFER_SIZE
    requires |data| == start + HEAD_LEN + |payload| + |END_IDENTIFIER| && Straddles(payload)
    ensures ExportOf(data, id) == Export(Err(Diverges), Some(payload + END_IDENTIFIER))
  {
    var chunk := ScanPart(data, start, h, id);
    GateRecord(data, start, h, chunk, payload);
    CopyHangsAt(data, start, h, chunk, payload);
  }

  /**
   * As written: `addResource` then `exportResource` of a payload of, say, 8188
   * zero bytes, appended last to a file holding no copy of the magic, never returns.
   */
  lemma ExportStraddle(host: seq<Byte>, payload: seq<Byte>, id: string, name: string, compressed: bool)
    requires Appended(payload, id, name, compressed).Ok? && Text.Trimmed(id)
    requires Util.FindSubsequence(host, MAGIC) == Option.None
    requires (|host| + MAGIC_OFFSET) % BUFFER_SIZE + |MAGIC| <= BUFFER_SIZE
    requires Straddles(payload) && |host| + HEAD_LEN + |payload| <= U64_MAX
    ensures ExportOf(host + Appended(payload, id, name, compressed).value, id)
         == Export(Err(Diverges), Some(payload + END_IDENTIFIER))
  {
    var h := New(id, |payload|, |payload|, name, ModeOf(compressed));
    var head := AppendedHead(payload, id, name, compressed, h);
    RecordPlaced(host, head, h, payload, []);
    var data := host + (head + payload + END_IDENTIFIER);
    assert host + (head + payload + END_IDENTIFIER) + [] == data;
    ExportStraddleAt(data, |host|, h, payload, id);
  }

  // ------------------------------------------------ exportResource, counted copy

  /** Corrected: copy exactly `left` bytes from `pos`, a chunk of at most 8192 at a time. */
  function CopyCounted(data: seq<Byte>, pos: nat, left: nat, written: seq<Byte>): (r: seq<Byte>)
    requires pos + left <= |data|
    ensures r == written + data[pos..pos + left]
    decreases left
  {
    if left == 0 then written
    else
      var n := if left < BUFFER_SIZE then left else BUFFER_SIZE;
      var r := CopyCounted(data, pos + n, left - n, written + data[pos..pos + n]);
      assert data[pos..pos + n] + data[pos + n..pos + left] == data[pos..pos + left];
      r
  }

  /**
   * What a successful export of the header at `start` writes: the bytes between
   * the header and an `ODEND`, as many as `Size` says.
   */
  predicate Delivers(data: seq<Byte>, start: nat, h: ResourceHead, out: seq<Byte>)
  {
    && start + HEAD_LEN + |out| + |END_IDENTIFIER| <= |data|
    && out == data[start + HEAD_LEN..start + HEAD_LEN + |out|]
    && data[start + HEAD_LEN + |out|..start + HEAD_LEN + |out| + |END_IDENTIFIER|] == END_IDENTIFIER
    && Numbers.ParseUnsigned(Text.Trim(h.size), U64_MAX) == Some(|out|)
  }

  /** Corrected: the counted copy of `length` bytes from `from`, then the check against `Size`. */
  function CopyCountedChecked(data: seq<Byte>, from: nat, length: nat, h: ResourceHead): (r: Export)
    requires from + length <= |data|
    ensures r.output == Some(data[from..from + length])
    ensures r.result.Ok? <==> Numbers.ParseUnsigned(Text.Trim(h.size), U64_MAX) == Some(length)
  {
    var out := CopyCounted(data, from, length, []);
    assert out == data[from..from + length];
    match Numbers.ParseUnsigned(Text.Trim(h.size), U64_MAX)
    case None => Export(Err(BadSize), Some(out))
    case Some(size) =>
      if |out| != size then Export(Err(SizeMismatch), Some(out))
      else Export(Ok(()), Some(out))
  }

  /** Corrected: after the checks, copy the `Length` bytes they vouched for. */
  function ExportFoundCounted(data: seq<Byte>, start: nat, h: ResourceHead): (r: Export)
    requires start + HEAD_LEN <= |data|
    ensures r.result.Ok? ==> r.output.Some? && Delivers(data, start, h, r.output.value)
  {
    match ExportGate(data, start, h)
    case Err(e) => Export(Err(e), Option.None)
    case Ok(from) =>
      GateEnd(data, start, h);
      var length := Numbers.ParseUnsigned(h.length, U64_MAX).value;
      var r := CopyCountedChecked(data, from, length, h);
      CountedDelivers(data, start, h, length, r);
      r
  }

  /** The counted copy of the `length` bytes before an `ODEND` delivers them. */
  lemma CountedDelivers(data: seq<Byte>, start: nat, h: ResourceHead, length: nat, r: Export)
    requires TrailerAfter(data, start + HEAD_LEN, length)
    requires r == CopyCountedChecked(data, start + HEAD_LEN, length, h)
    ensures r.result.Ok? ==> r.output.Some? && Delivers(data, start, h, r.output.value)
  {
    var out := r.output.value;
    assert |out| == length && out == data[start + HEAD_LEN..start + HEAD_LEN + length];
  }

  /** `ODEND` follows `length` bytes from `from`. */
  predicate TrailerAfter(data: seq<Byte>, from: nat, length: nat)
  {
    from + length + |END_IDENTIFIER| <= |data| && data[from + length..from + length + |END_IDENTIFIER|] == END_IDENTIFIER
  }

  /** Past the checks, `Length` parses and `ODEND` follows that many bytes after the header. */
  lemma GateEnd(data: seq<Byte>, start: nat, h: ResourceHead)
    requires start + HEAD_LEN <= |data| && ExportGate(data, start, h).Ok?
    ensures Numbers.ParseUnsigned(h.length, U64_MAX).Some?
    ensures TrailerAfter(data, start + HEAD_LEN, Numbers.ParseUnsigned(h.length, U64_MAX).value)
  {
    GateTrailer(data, start, h);
  }

  /** Corrected `exportResource`: the same scan, then the counted copy. */
  function ExportOfCounted(data: seq<Byte>, id: string): Export
  {
    match ExportScan(data, 0, Zeros(), 0, id)
    case Finished(e) => e
    case Matched(start, h, _) => ExportFoundCounted(data, start, h)
  }

  /** Corrected: for a header that describes its stored payload, the counted copy writes it exactly. */
  lemma FoundCounted(data: seq<Byte>, start: nat, h: ResourceHead, payload: seq<Byte>)
    requires Stored(data, start, payload) && Describes(h, |payload|)
    ensures ExportFoundCounted(data, start, h) == Export(Ok(()), Some(payload))
  {
    StoredFacts(data, start, payload);
    GateOpens(data, start, h, |payload|);
    CountedGate(data, start, h, |payload|);
  }

  /** Past the checks, the corrected export is the counted copy of `Length` bytes. */
  lemma CountedGate(data: seq<Byte>, start: nat, h: ResourceHead, n: nat)
    requires start + HEAD_LEN + n <= |data| && ExportGate(data, start, h) == Ok(start + HEAD_LEN)
    requires Numbers.ParseUnsigned(h.length, U64_MAX) == Some(n)
    ensures ExportFoundCounted(data, start, h) == CopyCountedChecked(data, start + HEAD_LEN, n, h)
  {
  }

  /** Corrected: the export of a located record succeeds with its payload, whatever the payload holds. */
  lemma ExportCountedAt(data: seq<Byte>, start: nat, h: ResourceHead, payload: seq<Byte>, id: string)
    requires Located(data, start, h, payload) && Text.Trim(h.id) == id && Describes(h, |payload|)
    requires (start + MAGIC_OFFSET) % BUFFER_SIZE + |MAGIC| <= BUFFER_SIZE
    ensures ExportOfCounted(data, id) == Export(Ok(()), Some(payload))
  {
    var chunk := ExportReaches(data, start, h, id);
    FoundCounted(data, start, h, payload);
  }

  /**
   * Corrected: `addResource` then the corrected `exportResource` gives back any
   * payload, `ODEND` in it or across a chunk included.
   */
  lemma ExportRoundTripCounted(host: seq<Byte>, payload: seq<Byte>, id: string, name: string, compressed: bool, tail: seq<Byte>)
    requires Appended(payload, id, name, compressed).Ok? && Text.Trimmed(id)
    requires Util.FindSubsequence(host, MAGIC) == Option.None
    requires (|host| + MAGIC_OFFSET) % BUFFER_SIZE + |MAGIC| <= BUFFER_SIZE
    requires |host| + HEAD_LEN + |payload| <= U64_MAX
    ensures ExportOfCounted(host + Appended(payload, id, name, compressed).value + tail, id) == Export(Ok(()), Some(payload))
  {
    var h := New(id, |payload|, |payload|, name, ModeOf(compressed));
    var head := AppendedHead(payload, id, name, compressed, h);
    RecordPlaced(host, head, h, payload, tail);
    ExportCountedAt(host + (head + payload + END_IDENTIFIER) + tail, |host|, h, payload, id);
  }
}
