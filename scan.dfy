/**
 * `exportResource` and `getResourceList`: the file is read in `BUFFER_SIZE`
 * chunks into one buffer that is never cleared, the magic is searched for in the
 * whole buffer, and a match at index `size` of chunk `count` is taken to be a
 * header starting at `BUFFER_SIZE * (count - 1) + size - MAGIC_OFFSET`.
 *
 * The recursive functions below follow the loops iteration by iteration; the
 * methods run the loops and are proved to agree with them.
 */
module Scan {
  import opened Types
  import Text
  import opened Record
  import opened RecordFacts
  import opened Files
  import Util
  import Numbers

  datatype ScanError =
    /** A debug-build panic: `size - 8` underflows, or an `unwrap` on a version or `Length` that does not parse, or a `usize` overflow. */
    | Panic
    /** `read_exact` ran past the end of the file. */
    | UnexpectedEof
    /** "Resource not found". */
    | NotFound
    /** The record's version is older: "please try to upgrade the program version". */
    | VersionTooOld
    /** The record's version is newer: "please try to lower the program version". */
    | VersionTooNew
    /** "The resource to be exported is incomplete": no `ODEND` after `Length` bytes. */
    | TrailerMissing
    /** "The resource to be exported is incomplete": the output is not `Size` bytes long. */
    | SizeMismatch
    /** `Size` does not parse as a number. */
    | BadSize
    /** `ResourceHead::from` failed (`getResourceList` propagates it). */
    | BadHeader
    /** The copy loop reads nothing more and never finds `ODEND`, so the source never returns. */
    | Diverges

  /** What `exportResource` ends with, and the output file if it was created. */
  datatype Export = Export(result: Result<(), ScanError>, output: Option<seq<Byte>>)

  /** The buffer before the first read: `[0u8; BUFFER_SIZE]`. */
  function Zeros(): (b: seq<Byte>)
    ensures |b| == BUFFER_SIZE && forall i :: 0 <= i < |b| ==> b[i] == 0
  {
    seq(BUFFER_SIZE, _ => 0)
  }

  lemma AllZeros(b: seq<Byte>)
    requires |b| == BUFFER_SIZE && forall i :: 0 <= i < |b| ==> b[i] == 0
    ensures b == Zeros()
  {
  }

  /**
   * `BUFFER_SIZE * (count - 1) + size - 8` for a match at `size` in chunk
   * `count` (counted from 1), or `None` where the `usize` subtraction underflows.
   */
  function HeaderStart(count: nat, size: nat): Option<nat>
    requires count >= 1
  {
    if BUFFER_SIZE * (count - 1) + size < MAGIC_OFFSET then Option.None
    else Some(BUFFER_SIZE * (count - 1) + size - MAGIC_OFFSET)
  }

  /** The version this program writes is a valid version, with components 1, 0, 0. */
  lemma CurrentVersion()
    ensures Util.Components(VERSION) == Some([1, 0, 0])
  {
    Util.ShortVersions();
  }

  // ------------------------------------------------------- one read of the scan

  /** What one pass of the scan loops finds, before they part ways. */
  datatype Probe =
    /** No magic in the buffer after a read of `n` bytes. */
    | Miss(n: nat)
    /** The pass ends the function with an error. */
    | Fail(error: ScanError)
    /** A candidate header at `start` that does not decode; the file is left after it. */
    | Undecodable(start: nat)
    /** A header `h` at `start`; `resume` is the position after the read of `n` bytes. */
    | Found(start: nat, h: ResourceHead, n: nat, resume: nat)

  /** What a pass decides: the loop ends with `result`, or goes on from `pos` with `state`. */
  datatype Step<R, S> = Done(result: R) | Again(pos: nat, state: S)

  /** Where a probe of the `count`-th read from `pos` can point. */
  ghost predicate ProbeFits(data: seq<Byte>, pos: nat, count: nat, p: Probe)
  {
    match p
    case Miss(n) => pos + n <= |data|
    case Fail(_) => true
    case Undecodable(start) => start + HEAD_LEN <= |data| && BUFFER_SIZE * (count - 1) <= start + MAGIC_OFFSET
    case Found(start, _, n, resume) => start + HEAD_LEN <= |data| && resume == pos + n <= |data|
  }

  /**
   * One pass of the loops of `exportResource` and `getResourceList`, the `count`-th
   * (from 1): read a chunk into the buffer, search the whole buffer for the magic,
   * and decode the `HEAD_LEN` bytes the match points at. Also the buffer afterwards.
   */
  function ProbeAt(data: seq<Byte>, pos: nat, buf: seq<Byte>, count: nat): (r: (Probe, seq<Byte>))
    requires count >= 1 && pos <= |data|
    ensures |r.1| == |buf| && ProbeFits(data, pos, count, r.0)
    ensures (r.0.Miss? || r.0.Found?) ==> r.0.n == ReadInto(data, pos, buf).0
  {
    var (n, chunk) := ReadInto(data, pos, buf);
    match Util.FindSubsequence(chunk, MAGIC)
    case None => (Miss(n), chunk)
    case Some(size) => (ProbeHit(data, count, size, n, pos + n), chunk)
  }

  /**
   * The rest of a pass once the magic is found at index `size` of the buffer:
   * seek to the header it points at and decode it.
   */
  function ProbeHit(data: seq<Byte>, count: nat, size: nat, n: nat, resume: nat): (p: Probe)
    requires count >= 1
    ensures !p.Miss?
    ensures p.Found? ==> p.start + HEAD_LEN <= |data| && p.n == n && p.resume == resume
    ensures p.Undecodable? ==> p.start + HEAD_LEN <= |data| && BUFFER_SIZE * (count - 1) <= p.start + MAGIC_OFFSET
  {
    match HeaderStart(count, size)
    case None => Fail(Panic)
    case Some(start) =>
      match ReadExactAt(data, start, HEAD_LEN)
      case None => Fail(UnexpectedEof)
      case Some(window) =>
        match From(window)
        case None => Undecodable(start)
        case Some(h) => Found(start, h, n, resume)
  }

  // ------------------------------------------------------------ exportResource

  /**
   * The copy loop of `exportResource` from position `pos`, having written
   * `written`: whole reads are written until the buffer holds `ODEND`, then the
   * bytes before that match. The flag is set where the source loops forever.
   */
  function CopyOut(data: seq<Byte>, pos: nat, buf: seq<Byte>, written: seq<Byte>): (r: (seq<Byte>, bool))
    requires pos <= |data|
    decreases |data| - pos
  {
    var (n, chunk) := ReadInto(data, pos, buf);
    match Util.FindSubsequence(chunk, END_IDENTIFIER)
    case Some(k) => (written + chunk[..k], false)
    case None =>
      if n == 0 then (written, true)
      else CopyOut(data, pos + n, chunk, written + chunk[..n])
  }

  /**
   * The checks `exportResource` makes on a header whose trimmed `Id` matched,
   * before it creates the output file: the version, `Length`, and `ODEND` after
   * `Length` bytes. The position where the copy starts on success.
   */
  function ExportGate(data: seq<Byte>, start: nat, h: ResourceHead): (r: Result<nat, ScanError>)
    requires start + HEAD_LEN <= |data|
    ensures r.Ok? ==> r.value == start + HEAD_LEN
  {
    match Util.VersionCompare(h.version, VERSION)
    case None => Err(Panic)
    case Some(Less) => Err(VersionTooOld)
    case Some(Greater) => Err(VersionTooNew)
    case Some(Equal) => TrailerGate(data, start, h)
  }

  /** The checks after the version: `Length` parses, and `ODEND` follows that many bytes after the header. */
  function TrailerGate(data: seq<Byte>, start: nat, h: ResourceHead): (r: Result<nat, ScanError>)
    requires start + HEAD_LEN <= |data|
    ensures r.Ok? ==> r.value == start + HEAD_LEN
  {
    match Numbers.ParseUnsigned(h.length, U64_MAX)
    case None => Err(Panic)
    case Some(length) =>
      var end := start + HEAD_LEN + length;
      if end > U64_MAX then Err(Panic)
      else match ReadExactAt(data, end, |END_IDENTIFIER|)
      case None => Err(UnexpectedEof)
      case Some(trailer) =>
        if trailer != END_IDENTIFIER then Err(TrailerMissing)
        else Ok(start + HEAD_LEN)
  }

  /** The copy from `from` and the check of the output's length against `Size`. */
  function ExportCopy(data: seq<Byte>, from: nat, h: ResourceHead, buf: seq<Byte>): Export
    requires from <= |data|
  {
    var (out, hangs) := CopyOut(data, from, buf, []);
    if hangs then Export(Err(Diverges), Some(out))
    else match Numbers.ParseUnsigned(Text.Trim(h.size), U64_MAX)
    case None => Export(Err(BadSize), Some(out))
    case Some(size) =>
      if |out| != size then Export(Err(SizeMismatch), Some(out))
      else Export(Ok(()), Some(out))
  }

  /** The part of `exportResource` after a header whose trimmed `Id` matched. */
  function ExportFound(data: seq<Byte>, start: nat, h: ResourceHead, buf: seq<Byte>): Export
    requires start + HEAD_LEN <= |data|
  {
    match ExportGate(data, start, h)
    case Err(e) => Export(Err(e), Option.None)
    case Ok(from) => ExportCopy(data, from, h, buf)
  }

  /**
   * How the scan loop of `exportResource` ends: with the outcome, or at a header
   * whose trimmed `Id` matched, found at `start` with `chunk` in the buffer.
   */
  datatype Search = Finished(e: Export) | Matched(start: nat, h: ResourceHead, chunk: seq<Byte>)

  /**
   * What the `count`-th pass of `exportResource`'s scan loop does after its probe.
   * A header that fails to decode is skipped without restoring the position, and
   * without the check for the end of the file.
   */
  function ExportNext(data: seq<Byte>, pos: nat, count: nat, probe: Probe, chunk: seq<Byte>, id: string)
    : (r: Step<Search, ()>)
    requires count >= 1 && ProbeFits(data, pos, count, probe) && BUFFER_SIZE * (count - 1) <= pos + BUFFER_SIZE
    ensures r.Again? ==> r.pos <= |data| && BUFFER_SIZE * count <= r.pos + BUFFER_SIZE
    ensures r.Done? && r.result.Matched? ==> r.result.start + HEAD_LEN <= |data| && r.result.chunk == chunk
    ensures r.Done? && r.result.Matched? ==> probe.Found? && r.result.start == probe.start && r.result.h == probe.h
    ensures r.Done? && r.result.Matched? ==> Text.Trim(r.result.h.id) == id
    ensures r.Done? && r.result.Finished? ==> r.result.e.output.None? && r.result.e.result.Err?
  {
    match probe
    case Miss(n) =>
      if n < BUFFER_SIZE then Done(Finished(Export(Err(NotFound), Option.None))) else Again(pos + n, ())
    case Fail(e) => Done(Finished(Export(Err(e), Option.None)))
    case Undecodable(start) => Again(start + HEAD_LEN, ())
    case Found(start, h, n, resume) =>
      if Text.Trim(h.id) == id then Done(Matched(start, h, chunk))
      else if n < BUFFER_SIZE then Done(Finished(Export(Err(NotFound), Option.None)))
      else Again(resume, ())
  }

  /** The scan loop of `exportResource` from position `pos` after `count` reads. */
  function ExportScan(data: seq<Byte>, pos: nat, buf: seq<Byte>, count: nat, id: string): (r: Search)
    requires pos <= |data| && |buf| == BUFFER_SIZE && BUFFER_SIZE * count <= pos + BUFFER_SIZE
    ensures r.Matched? ==> r.start + HEAD_LEN <= |data| && |r.chunk| == BUFFER_SIZE
    ensures r.Matched? ==> Text.Trim(r.h.id) == id
    ensures r.Finished? ==> r.e.output.None? && r.e.result.Err?
    decreases |data| + BUFFER_SIZE - BUFFER_SIZE * count
  {
    var (probe, chunk) := ProbeAt(data, pos, buf, count + 1);
    match ExportNext(data, pos, count + 1, probe, chunk, id)
    case Done(search) => search
    case Again(next, _) => ExportScan(data, next, chunk, count + 1, id)
  }

  /** `exportResource` on a file holding `data`. */
  function ExportOf(data: seq<Byte>, id: string): Export
  {
    match ExportScan(data, 0, Zeros(), 0, id)
    case Finished(e) => e
    case Matched(start, h, chunk) => ExportFound(data, start, h, chunk)
  }

  // ----------------------------------------------------------- getResourceList

  /**
   * What a pass of `getResourceList`'s loop does after its probe, having collected
   * `configs`: a header that fails to decode ends the scan with an error.
   */
  function ListNext(data: seq<Byte>, pos: nat, count: nat, probe: Probe, configs: seq<ResourceHead>)
    : (r: Step<Result<seq<ResourceHead>, ScanError>, seq<ResourceHead>>)
    requires count >= 1 && ProbeFits(data, pos, count, probe)
    ensures r.Again? ==> pos < r.pos <= |data|
  {
    match probe
    case Miss(n) => if n < BUFFER_SIZE then Done(Ok(configs)) else Again(pos + n, configs)
    case Fail(e) => Done(Err(e))
    case Undecodable(_) => Done(Err(BadHeader))
    case Found(_, h, n, resume) =>
      if n < BUFFER_SIZE then Done(Ok(configs + [h])) else Again(resume, configs + [h])
  }

  /** The loop of `getResourceList` from position `pos` after `count` reads. */
  function ListScan(data: seq<Byte>, pos: nat, buf: seq<Byte>, count: nat, configs: seq<ResourceHead>)
    : Result<seq<ResourceHead>, ScanError>
    requires pos <= |data| && |buf| == BUFFER_SIZE
    decreases |data| - pos
  {
    var (probe, chunk) := ProbeAt(data, pos, buf, count + 1);
    match ListNext(data, pos, count + 1, probe, configs)
    case Done(r) => r
    case Again(next, collected) => ListScan(data, next, chunk, count + 1, collected)
  }

  /** `getResourceList` on a file holding `data`. */
  function ListOf(data: seq<Byte>): Result<seq<ResourceHead>, ScanError>
  {
    ListScan(data, 0, Zeros(), 0, [])
  }

  // ------------------------------------------------------------------ methods

  /** `ResourceHead::default().getLen()`, the number of bytes every scan reads as a header. */
  method HeadLen() returns (n: nat)
    ensures n == HEAD_LEN
  {
    DefaultLength();
    n := GetLen(Default());
  }

  /**
   * One pass of the scan loops: read, search, seek to the candidate header and
   * decode it. The position after the read is kept for the caller to return to.
   */
  method ProbeChunk(file: Reader, buffer: array<Byte>, count: nat, headLen: nat) returns (p: Probe)
    requires count >= 1 && file.pos <= |file.data| && headLen == HEAD_LEN
    modifies file, buffer
    ensures p == ProbeAt(file.data, old(file.pos), old(buffer[..]), count).0
    ensures buffer[..] == ProbeAt(file.data, old(file.pos), old(buffer[..]), count).1
    ensures p.Miss? ==> file.pos == old(file.pos) + p.n
    ensures p.Undecodable? ==> file.pos == p.start + HEAD_LEN
  {
    var nbytes := file.Read(buffer);
    var found := Util.FindSubsequence(buffer[..], MAGIC);
    if found.None? {
      return Miss(nbytes);
    }
    p := ProbeHeader(file, count, headLen, found.value, nbytes);
  }

  /** The part of a pass after a match at index `size`: seek back to the header and decode it. */
  method ProbeHeader(file: Reader, count: nat, headLen: nat, size: nat, nbytes: nat) returns (p: Probe)
    requires count >= 1 && headLen == HEAD_LEN
    modifies file
    ensures p == ProbeHit(file.data, count, size, nbytes, old(file.pos))
    ensures p.Undecodable? ==> file.pos == p.start + HEAD_LEN
  {
    if BUFFER_SIZE * (count - 1) + size < MAGIC_OFFSET {
      return Fail(Panic);
    }
    var startSize := BUFFER_SIZE * (count - 1) + size - MAGIC_OFFSET;
    var oldSize := file.pos;
    file.Seek(startSize);
    var configBuffer := file.ReadExact(headLen);
    if configBuffer.None? {
      return Fail(UnexpectedEof);
    }
    var config := From(configBuffer.value);
    if config.None? {
      return Undecodable(startSize);
    }
    return Found(startSize, config.value, nbytes, oldSize);
  }

  /**
   * The copy loop of `exportResource`. Where the source would read nothing, find
   * no `ODEND` in the unchanged buffer and go round again forever, this stops and
   * reports it. Decompression is a no-op in the source and is not modelled.
   */
  method CopyToOutput(file: Reader, buffer: array<Byte>, output: Writer) returns (hangs: bool)
    requires file.pos <= |file.data|
    modifies file, buffer, output
    ensures (output.data, hangs) == CopyOut(file.data, old(file.pos), old(buffer[..]), old(output.data))
  {
    while true
      invariant file.pos <= |file.data|
      invariant CopyOut(file.data, file.pos, buffer[..], output.data)
        == CopyOut(file.data, old(file.pos), old(buffer[..]), old(output.data))
      decreases |file.data| - file.pos
    {
      var stop;
      stop, hangs := CopyPass(file, buffer, output);
      if stop {
        return;
      }
    }
  }

  /** The body of the copy loop: one read, then stop or write it all and go on. */
  method CopyPass(file: Reader, buffer: array<Byte>, output: Writer) returns (stop: bool, hangs: bool)
    requires file.pos <= |file.data|
    modifies file, buffer, output
    ensures stop ==> (output.data, hangs) == CopyOut(file.data, old(file.pos), old(buffer[..]), old(output.data))
    ensures !stop ==> old(file.pos) < file.pos <= |file.data|
    ensures !stop ==>
      CopyOut(file.data, file.pos, buffer[..], output.data) == CopyOut(file.data, old(file.pos), old(buffer[..]), old(output.data))
  {
    ghost var pos, before, written := file.pos, buffer[..], output.data;
    var nbytes := file.Read(buffer);
    ghost var chunk := buffer[..];
    CopyOutStep(file.data, pos, before, written, nbytes, chunk);
    var found := Util.FindSubsequence(buffer[..], END_IDENTIFIER);
    if found.Some? {
      output.WriteAll(buffer[..found.value]);
      return true, false;
    }
    if nbytes == 0 {
      return true, true;
    }
    var read := buffer[..nbytes];
    assert read == chunk[..nbytes];
    output.WriteAll(read);
    assert buffer[..] == chunk && output.data == written + chunk[..nbytes];
    stop, hangs := false, false;
  }

  /** One pass of the copy loop, given what the read returned. */
  lemma CopyOutStep(data: seq<Byte>, pos: nat, buf: seq<Byte>, written: seq<Byte>, n: nat, chunk: seq<Byte>)
    requires pos <= |data| && (n, chunk) == ReadInto(data, pos, buf)
    ensures var found := Util.FindSubsequence(chunk, END_IDENTIFIER);
      && (found.Some? ==> CopyOut(data, pos, buf, written) == (written + chunk[..found.value], false))
      && (found.None? && n == 0 ==> CopyOut(data, pos, buf, written) == (written, true))
      && (found.None? && n > 0 ==>
            pos + n <= |data| && CopyOut(data, pos, buf, written) == CopyOut(data, pos + n, chunk, written + chunk[..n]))
  {
  }


  /** The checks of `exportResource` before the output file is created. */
  method CheckMatched(file: Reader, start: nat, config: ResourceHead) returns (r: Result<nat, ScanError>)
    requires start + HEAD_LEN <= |file.data|
    modifies file
    ensures r == ExportGate(file.data, start, config)
  {
    var versionOrdering := Util.CompareVersion(config.version, VERSION);
    if versionOrdering.None? {
      return Err(Panic);
    }
    if versionOrdering.value == Less {
      return Err(VersionTooOld);
    }
    if versionOrdering.value == Greater {
      return Err(VersionTooNew);
    }
    r := CheckTrailer(file, start, config);
  }

  /** The `Length` and trailer checks of `exportResource`. */
  method CheckTrailer(file: Reader, start: nat, config: ResourceHead) returns (r: Result<nat, ScanError>)
    requires start + HEAD_LEN <= |file.data|
    modifies file
    ensures r == TrailerGate(file.data, start, config)
  {
    var resourceLength := Numbers.ParseUnsigned(config.length, U64_MAX);
    if resourceLength.None? {
      return Err(Panic);
    }
    var end := start + HEAD_LEN + resourceLength.value;
    if end > U64_MAX {
      return Err(Panic);
    }
    file.Seek(end);
    var endBuffer := file.ReadExact(|END_IDENTIFIER|);
    if endBuffer.None? {
      return Err(UnexpectedEof);
    }
    if endBuffer.value != END_IDENTIFIER {
      return Err(TrailerMissing);
    }
    return Ok(start + HEAD_LEN);
  }

  /** `exportResource` once a header with the requested `Id` is found at `start`. */
  method ExportMatched(file: Reader, start: nat, config: ResourceHead, buffer: array<Byte>) returns (e: Export)
    requires start + HEAD_LEN <= |file.data|
    modifies file, buffer
    ensures e == ExportFound(file.data, start, config, old(buffer[..]))
  {
    var checked := CheckMatched(file, start, config);
    if checked.Err? {
      return Export(Err(checked.error), Option.None);
    }
    var output := new Writer.Create([]);
    file.Seek(checked.value);
    var hangs := CopyToOutput(file, buffer, output);
    if hangs {
      return Export(Err(Diverges), Some(output.data));
    }
    var size := Numbers.ParseUnsigned(Text.Trim(config.size), U64_MAX);
    if size.None? {
      return Export(Err(BadSize), Some(output.data));
    }
    if |output.data| != size.value {
      return Export(Err(SizeMismatch), Some(output.data));
    }
    return Export(Ok(()), Some(output.data));
  }

  /** The rest of a pass of `exportResource`'s scan loop, once the probe is made. */
  method ExportDecide(file: Reader, buffer: array<Byte>, ghost pos: nat, count: nat, probe: Probe, id: string)
    returns (step: Step<Search, ()>)
    requires count >= 1 && ProbeFits(file.data, pos, count, probe) && BUFFER_SIZE * (count - 1) <= pos + BUFFER_SIZE
    requires buffer.Length == BUFFER_SIZE
    requires probe.Miss? ==> file.pos == pos + probe.n
    requires probe.Undecodable? ==> file.pos == probe.start + HEAD_LEN
    modifies file
    ensures step == ExportNext(file.data, pos, count, probe, buffer[..], id)
    ensures step.Again? ==> file.pos == step.pos
  {
    match probe
    case Miss(nbytes) =>
      if nbytes < buffer.Length {
        return Done(Finished(Export(Err(NotFound), Option.None)));
      }
      return Again(file.pos, ());
    case Fail(error) =>
      return Done(Finished(Export(Err(error), Option.None)));
    case Undecodable(_) =>
      return Again(file.pos, ());
    case Found(startSize, config, nbytes, oldSize) =>
      if Text.Trim(config.id) == id {
        return Done(Matched(startSize, config, buffer[..]));
      }
      file.Seek(oldSize);
      if nbytes < buffer.Length {
        return Done(Finished(Export(Err(NotFound), Option.None)));
      }
      return Again(oldSize, ());
  }

  /** One pass of `exportResource`'s scan loop, the `count`-th. */
  method ExportPass(file: Reader, buffer: array<Byte>, count: nat, headLen: nat, id: string)
    returns (step: Step<Search, ()>)
    requires count >= 1 && file.pos <= |file.data| && BUFFER_SIZE * (count - 1) <= file.pos + BUFFER_SIZE
    requires buffer.Length == BUFFER_SIZE && headLen == HEAD_LEN
    modifies file, buffer
    ensures var (probe, chunk) := ProbeAt(file.data, old(file.pos), old(buffer[..]), count);
      && step == ExportNext(file.data, old(file.pos), count, probe, chunk, id)
      && buffer[..] == chunk && (step.Again? ==> file.pos == step.pos)
  {
    ghost var pos := file.pos;
    var probe := ProbeChunk(file, buffer, count, headLen);
    step := ExportDecide(file, buffer, pos, count, probe, id);
  }

  /** `exportResource` on a file holding `data`: the outcome and the output file. */
  method ExportResource(data: seq<Byte>, id: string) returns (e: Export)
    ensures e == ExportOf(data, id)
  {
    var headLen := HeadLen();
    var file := new Reader.Open(data);
    var buffer := new Byte[BUFFER_SIZE](_ => 0);
    AllZeros(buffer[..]);
    var search := ExportSearch(file, buffer, headLen, id);
    match search
    case Finished(outcome) =>
      return outcome;
    case Matched(startSize, config, _) =>
      e := ExportMatched(file, startSize, config, buffer);
  }

  /** The scan loop of `exportResource` from the start of the file, up to a match or the end. */
  method ExportSearch(file: Reader, buffer: array<Byte>, headLen: nat, id: string) returns (search: Search)
    requires file.pos == 0 && buffer.Length == BUFFER_SIZE && buffer[..] == Zeros() && headLen == HEAD_LEN
    modifies file, buffer
    ensures search == ExportScan(file.data, 0, Zeros(), 0, id)
    ensures search.Matched? ==> buffer[..] == search.chunk
  {
    ghost var target := ExportScan(file.data, 0, Zeros(), 0, id);
    var count := 0;
    while true
      invariant file.pos <= |file.data| && BUFFER_SIZE * count <= file.pos + BUFFER_SIZE
      invariant ExportScan(file.data, file.pos, buffer[..], count, id) == target
      decreases |file.data| + BUFFER_SIZE - BUFFER_SIZE * count
    {
      count := count + 1;
      var step := ExportPass(file, buffer, count, headLen, id);
      if step.Done? {
        search := step.result;
        break;
      }
    }
  }

  /** The rest of a pass of `getResourceList`'s loop, once the probe is made. */
  method ListDecide(file: Reader, ghost pos: nat, count: nat, probe: Probe, configs: seq<ResourceHead>)
    returns (step: Step<Result<seq<ResourceHead>, ScanError>, seq<ResourceHead>>)
    requires count >= 1 && ProbeFits(file.data, pos, count, probe)
    requires probe.Miss? ==> file.pos == pos + probe.n
    modifies file
    ensures step == ListNext(file.data, pos, count, probe, configs)
    ensures step.Again? ==> file.pos == step.pos
  {
    match probe
    case Miss(nbytes) =>
      if nbytes < BUFFER_SIZE {
        return Done(Ok(configs));
      }
      return Again(file.pos, configs);
    case Fail(error) =>
      return Done(Err(error));
    case Undecodable(_) =>
      return Done(Err(BadHeader));
    case Found(_, config, nbytes, oldSize) =>
      var collected := configs + [config];
      file.Seek(oldSize);
      if nbytes < BUFFER_SIZE {
        return Done(Ok(collected));
      }
      return Again(oldSize, collected);
  }

  /** `getResourceList` on a file holding `data`. */
  method GetResourceList(data: seq<Byte>) returns (r: Result<seq<ResourceHead>, ScanError>)
    ensures r == ListOf(data)
  {
    var headLen := HeadLen();
    var file := new Reader.Open(data);
    var buffer := new Byte[BUFFER_SIZE](_ => 0);
    AllZeros(buffer[..]);
    var count := 0;
    var configs := [];
    while true
      invariant file.data == data && file.pos <= |data| && buffer.Length == BUFFER_SIZE
      invariant ListScan(data, file.pos, buffer[..], count, configs) == ListOf(data)
      decreases |data| - file.pos
    {
      ghost var pos := file.pos;
      count := count + 1;
      var probe := ProbeChunk(file, buffer, count, headLen);
      var step := ListDecide(file, pos, count, probe, configs);
      if step.Done? {
        return step.result;
      }
      configs := step.state;
    }
  }
}
