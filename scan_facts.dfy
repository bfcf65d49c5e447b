/**
 * Properties of the chunked scans of `src/core.rs`: what they return on a file
 * with no magic, what every listed header is, and that a record appended by
 * `addResource` is exported back.
 */
module ScanFacts {
  import opened Types
  import Text
  import opened Record
  import opened RecordFacts
  import opened Files
  import opened Scan
  import Util
  import Numbers

  /** No byte of `b` is the first byte of the magic, 0x89. */
  predicate NoLead(b: seq<Byte>)
  {
    forall i :: 0 <= i < |b| ==> b[i] != MAGIC[0]
  }

  /** A buffer without 0x89 holds no magic. */
  lemma NoLeadNoMagic(chunk: seq<Byte>)
    requires NoLead(chunk)
    ensures Util.FindSubsequence(chunk, MAGIC) == Option.None
  {
    forall j | 0 <= j && j + |MAGIC| <= |chunk|
      ensures !Util.MatchAt(chunk, MAGIC, j)
    {
      assert chunk[j..j + |MAGIC|][0] == chunk[j];
    }
  }

  /** A read from a file without 0x89 into a buffer without 0x89 finds no magic. */
  lemma ProbeMiss(data: seq<Byte>, pos: nat, buf: seq<Byte>, count: nat)
    requires count >= 1 && pos <= |data| && NoLead(data) && NoLead(buf)
    ensures ProbeAt(data, pos, buf, count).0 == Miss(ReadInto(data, pos, buf).0)
    ensures NoLead(ProbeAt(data, pos, buf, count).1)
  {
    var (n, chunk) := ReadInto(data, pos, buf);
    forall i | 0 <= i < |chunk|
      ensures chunk[i] != MAGIC[0]
    {
      if i < n {
        assert chunk[i] == chunk[..n][i] == data[pos + i];
      } else {
        assert chunk[i] == chunk[n..][i - n] == buf[i];
      }
    }
    NoLeadNoMagic(chunk);
  }

  /** One pass of `exportResource`'s scan over a file and a buffer without 0x89. */
  lemma ExportMissStep(data: seq<Byte>, pos: nat, buf: seq<Byte>, count: nat, id: string) returns (chunk: seq<Byte>)
    requires pos <= |data| && |buf| == BUFFER_SIZE && BUFFER_SIZE * count <= pos + BUFFER_SIZE
    requires NoLead(data) && NoLead(buf)
    ensures |chunk| == BUFFER_SIZE && NoLead(chunk)
    ensures || ExportScan(data, pos, buf, count, id) == Finished(Export(Err(NotFound), Option.None))
            || (pos + BUFFER_SIZE <= |data|
                && ExportScan(data, pos, buf, count, id) == ExportScan(data, pos + BUFFER_SIZE, chunk, count + 1, id))
  {
    ProbeMiss(data, pos, buf, count + 1);
    var pc := ProbeAt(data, pos, buf, count + 1);
    chunk := pc.1;
    ExportMiss(data, pos, buf, count, id, pc.0.n, chunk);
  }

  /** A pass whose probe misses ends the scan after a short read, and goes on after a full one. */
  lemma ExportMiss(data: seq<Byte>, pos: nat, buf: seq<Byte>, count: nat, id: string, n: nat, chunk: seq<Byte>)
    requires pos <= |data| && |buf| == BUFFER_SIZE && BUFFER_SIZE * count <= pos + BUFFER_SIZE
    requires ProbeAt(data, pos, buf, count + 1) == (Miss(n), chunk)
    ensures n < BUFFER_SIZE ==> ExportScan(data, pos, buf, count, id) == Finished(Export(Err(NotFound), Option.None))
    ensures n >= BUFFER_SIZE ==> n == BUFFER_SIZE && pos + BUFFER_SIZE <= |data|
    ensures n >= BUFFER_SIZE ==> ExportScan(data, pos, buf, count, id) == ExportScan(data, pos + BUFFER_SIZE, chunk, count + 1, id)
  {
  }

  /** `exportResource` on a file with no 0x89 byte: "Resource not found", no output. */
  lemma {:induction false} ExportScanNoMagic(data: seq<Byte>, pos: nat, buf: seq<Byte>, count: nat, id: string)
    requires pos <= |data| && |buf| == BUFFER_SIZE && BUFFER_SIZE * count <= pos + BUFFER_SIZE
    requires NoLead(data) && NoLead(buf)
    ensures ExportScan(data, pos, buf, count, id) == Finished(Export(Err(NotFound), Option.None))
    decreases |data| + BUFFER_SIZE - BUFFER_SIZE * count
  {
    var chunk := ExportMissStep(data, pos, buf, count, id);
    if ExportScan(data, pos, buf, count, id) != Finished(Export(Err(NotFound), Option.None)) {
      ExportScanNoMagic(data, pos + BUFFER_SIZE, chunk, count + 1, id);
    }
  }

  lemma ExportNoMagic(data: seq<Byte>, id: string)
    requires NoLead(data)
    ensures ExportOf(data, id) == Export(Err(NotFound), Option.None)
  {
    ExportScanNoMagic(data, 0, Zeros(), 0, id);
  }

  /** One pass of `getResourceList`'s loop over a file and a buffer without 0x89. */
  lemma ListMissStep(data: seq<Byte>, pos: nat, buf: seq<Byte>, count: nat, configs: seq<ResourceHead>)
    returns (chunk: seq<Byte>)
    requires pos <= |data| && |buf| == BUFFER_SIZE && NoLead(data) && NoLead(buf)
    ensures |chunk| == BUFFER_SIZE && NoLead(chunk)
    ensures || ListScan(data, pos, buf, count, configs) == Ok(configs)
            || (pos + BUFFER_SIZE <= |data|
                && ListScan(data, pos, buf, count, configs) == ListScan(data, pos + BUFFER_SIZE, chunk, count + 1, configs))
  {
    ProbeMiss(data, pos, buf, count + 1);
    var pc := ProbeAt(data, pos, buf, count + 1);
    chunk := pc.1;
    ListPass(data, pos, buf, count, configs, pc.0, chunk);
    ListMissNext(data, pos, count + 1, pc.0, configs);
  }

  /** After a pass that found nothing, `getResourceList` stops or reads the next chunk. */
  lemma ListMissNext(data: seq<Byte>, pos: nat, count: nat, probe: Probe, configs: seq<ResourceHead>)
    requires count >= 1 && ProbeFits(data, pos, count, probe) && probe.Miss? && probe.n <= BUFFER_SIZE
    ensures var step := ListNext(data, pos, count, probe, configs);
      || step == Done(Ok(configs))
      || (step == Again(pos + BUFFER_SIZE, configs) && pos + BUFFER_SIZE <= |data|)
  {
  }

  /** The loop of `getResourceList` after a pass with the given probe. */
  lemma ListPass(data: seq<Byte>, pos: nat, buf: seq<Byte>, count: nat, configs: seq<ResourceHead>, probe: Probe, chunk: seq<Byte>)
    requires pos <= |data| && |buf| == BUFFER_SIZE && ProbeAt(data, pos, buf, count + 1) == (probe, chunk)
    ensures |chunk| == BUFFER_SIZE && ProbeFits(data, pos, count + 1, probe)
    ensures var step := ListNext(data, pos, count + 1, probe, configs);
      && (step.Done? ==> ListScan(data, pos, buf, count, configs) == step.result)
      && (step.Again? ==> ListScan(data, pos, buf, count, configs) == ListScan(data, step.pos, chunk, count + 1, step.state))
  {
  }

  lemma {:induction false} ListScanNoMagic(data: seq<Byte>, pos: nat, buf: seq<Byte>, count: nat, configs: seq<ResourceHead>)
    requires pos <= |data| && |buf| == BUFFER_SIZE && NoLead(data) && NoLead(buf)
    ensures ListScan(data, pos, buf, count, configs) == Ok(configs)
    decreases |data| - pos
  {
    var chunk := ListMissStep(data, pos, buf, count, configs);
    if ListScan(data, pos, buf, count, configs) != Ok(configs) {
      ListScanNoMagic(data, pos + BUFFER_SIZE, chunk, count + 1, configs);
    }
  }

  /** `getResourceList` on a file with no 0x89 byte: an empty list. */
  lemma ListNoMagic(data: seq<Byte>)
    requires NoLead(data)
    ensures ListOf(data) == Ok([])
  {
    ListScanNoMagic(data, 0, Zeros(), 0, []);
  }

  // --------------------------------------------------------------- soundness

  /** `h` is what `ResourceHead::from` decodes from the `HEAD_LEN` bytes at `start`. */
  ghost predicate HeaderAt(data: seq<Byte>, start: nat, h: ResourceHead)
  {
    start + HEAD_LEN <= |data| && From(data[start..start + HEAD_LEN]) == Some(h)
  }

  /** A header a pass finds is decoded from the file at the start it reports. */
  lemma ProbeFound(data: seq<Byte>, pos: nat, buf: seq<Byte>, count: nat)
    requires count >= 1 && pos <= |data|
    requires ProbeAt(data, pos, buf, count).0.Found?
    ensures var p := ProbeAt(data, pos, buf, count).0; HeaderAt(data, p.start, p.h)
  {
  }

  /** The pass reading the `count`-th chunk at `pos` finds the header `h` at `start`. */
  ghost predicate FoundBy(data: seq<Byte>, pos: nat, buf: seq<Byte>, count: nat, start: nat, h: ResourceHead)
  {
    && count >= 1 && pos <= |data|
    && var p := ProbeAt(data, pos, buf, count).0;
      p.Found? && p.start == start && p.h == h
  }

  /** Some pass of a scan finds the header `h` at `start`. */
  ghost predicate Hit(data: seq<Byte>, start: nat, h: ResourceHead)
  {
    exists pos: nat, buf, count: nat :: FoundBy(data, pos, buf, count, start, h)
  }

  /** A header some pass finds is decoded from the file there. */
  lemma HitDecoded(data: seq<Byte>, start: nat, h: ResourceHead)
    requires Hit(data, start, h)
    ensures HeaderAt(data, start, h)
  {
    var pos: nat, buf, count: nat :| FoundBy(data, pos, buf, count, start, h);
    ProbeFound(data, pos, buf, count);
  }

  /** `h` is decoded from some position of the file. */
  ghost predicate Decoded(data: seq<Byte>, h: ResourceHead)
  {
    exists start :: HeaderAt(data, start, h)
  }

  /** Every header of `s` is decoded from some position of the file. */
  ghost predicate AllDecoded(data: seq<Byte>, s: seq<ResourceHead>)
    decreases |s|
  {
    |s| == 0 || (Decoded(data, s[0]) && AllDecoded(data, s[1..]))
  }

  /** `r` is `configs` followed by headers decoded from the file. */
  ghost predicate Extends(data: seq<Byte>, configs: seq<ResourceHead>, r: seq<ResourceHead>)
  {
    |configs| <= |r| && r[..|configs|] == configs && AllDecoded(data, r[|configs|..])
  }

  lemma ExtendsOne(data: seq<Byte>, configs: seq<ResourceHead>, h: ResourceHead, r: seq<ResourceHead>)
    requires Decoded(data, h) && Extends(data, configs + [h], r)
    ensures Extends(data, configs, r)
  {
    var n := |configs|;
    assert r[..n] == (configs + [h])[..n] == configs;
    assert r[n..][0] == r[n] == (configs + [h])[n] == h;
    assert r[n..][1..] == r[n + 1..];
  }

  lemma {:induction false} AllDecodedIn(data: seq<Byte>, s: seq<ResourceHead>)
    requires AllDecoded(data, s)
    ensures forall h :: h in s ==> Decoded(data, h)
    decreases |s|
  {
    if |s| > 0 {
      AllDecodedIn(data, s[1..]);
      assert forall h :: h in s ==> h == s[0] || h in s[1..];
    }
  }

  /** The probe of one pass of `getResourceList`, with what the pass does after it. */
  lemma ListProbe(data: seq<Byte>, pos: nat, buf: seq<Byte>, count: nat, configs: seq<ResourceHead>)
    returns (probe: Probe, chunk: seq<Byte>)
    requires pos <= |data| && |buf| == BUFFER_SIZE
    ensures |chunk| == BUFFER_SIZE && ProbeFits(data, pos, count + 1, probe)
    ensures probe.Found? ==> HeaderAt(data, probe.start, probe.h)
    ensures var step := ListNext(data, pos, count + 1, probe, configs);
      && (step.Done? ==> ListScan(data, pos, buf, count, configs) == step.result)
      && (step.Again? ==> ListScan(data, pos, buf, count, configs) == ListScan(data, step.pos, chunk, count + 1, step.state))
  {
    var pc := ProbeAt(data, pos, buf, count + 1);
    probe := pc.0;
    chunk := pc.1;
    ListPass(data, pos, buf, count, configs, probe, chunk);
    if probe.Found? {
      ProbeFound(data, pos, buf, count + 1);
    }
  }

  /**
   * One pass of `getResourceList`'s loop: it ends with `configs`, maybe followed
   * by a decoded header, or with an error; or it goes on with the same.
   */
  lemma ListUnfold(data: seq<Byte>, pos: nat, buf: seq<Byte>, count: nat, configs: seq<ResourceHead>)
    returns (next: nat, chunk: seq<Byte>, found: bool, h: ResourceHead, more: seq<ResourceHead>, again: bool)
    requires pos <= |data| && |buf| == BUFFER_SIZE
    ensures |chunk| == BUFFER_SIZE && (again ==> pos < next <= |data|)
    ensures more == (if found then configs + [h] else configs) && (found ==> Decoded(data, h))
    ensures again ==> ListScan(data, pos, buf, count, configs) == ListScan(data, next, chunk, count + 1, more)
    ensures !again && ListScan(data, pos, buf, count, configs).Ok? ==> ListScan(data, pos, buf, count, configs).value == more
  {
    var probe;
    probe, chunk := ListProbe(data, pos, buf, count, configs);
    var step := ListNext(data, pos, count + 1, probe, configs);
    ListCollects(data, pos, count + 1, probe, configs);
    found := probe.Found?;
    h := if probe.Found? then probe.h else ResourceHead([], [], [], [], [], [], CompressMode.None);
    more := if found then configs + [h] else configs;
    if probe.Found? {
      assert HeaderAt(data, probe.start, h);
    }
    again := step.Again?;
    next := if step.Again? then step.pos else pos;
  }


  /** A pass of `getResourceList` collects the header its probe found, and only that one. */
  lemma ListCollects(data: seq<Byte>, pos: nat, count: nat, probe: Probe, configs: seq<ResourceHead>)
    requires count >= 1 && ProbeFits(data, pos, count, probe)
    ensures var step := ListNext(data, pos, count, probe, configs);
      var more := if probe.Found? then configs + [probe.h] else configs;
      && (step.Again? ==> step.state == more)
      && (step.Done? && step.result.Ok? ==> step.result.value == more)
  {
  }

  /**
   * Every header `getResourceList` returns was decoded from the file, and the
   * headers already collected stay at the front, in order.
   */
  lemma {:induction false} ListScanSound(data: seq<Byte>, pos: nat, buf: seq<Byte>, count: nat, configs: seq<ResourceHead>)
    requires pos <= |data| && |buf| == BUFFER_SIZE
    requires ListScan(data, pos, buf, count, configs).Ok?
    ensures Extends(data, configs, ListScan(data, pos, buf, count, configs).value)
    decreases |data| - pos
  {
    var next, chunk, found, h, more, again := ListUnfold(data, pos, buf, count, configs);
    var r := ListScan(data, pos, buf, count, configs).value;
    if again {
      ListScanSound(data, next, chunk, count + 1, more);
    } else {
      assert r[|more|..] == [];
    }
    if found {
      ExtendsOne(data, configs, h, r);
    }
  }

  /** Every header `getResourceList` returns is decoded from some position of the file. */
  lemma ListSound(data: seq<Byte>)
    requires ListOf(data).Ok?
    ensures forall h :: h in ListOf(data).value ==> Decoded(data, h)
  {
    ListScanSound(data, 0, Zeros(), 0, []);
    var r := ListOf(data).value;
    assert r[0..] == r;
    AllDecodedIn(data, r);
  }

  /**
   * A header `exportResource` accepts: decoded at `start`, its trimmed `Id` is
   * `id`, its version equals this program's (1.0.0), `Length` parses, and `ODEND` sits
   * right after `Length` bytes of payload.
   */
  ghost predicate Accepted(data: seq<Byte>, id: string, start: nat, h: ResourceHead)
  {
    && HeaderAt(data, start, h) && Text.Trim(h.id) == id
    && Util.ValidVersion(h.version) && Util.Compare(Util.Components(h.version).value, [1, 0, 0]) == Equal
    && Numbers.ParseUnsigned(h.length, U64_MAX).Some?
    && var end := start + HEAD_LEN + Numbers.ParseUnsigned(h.length, U64_MAX).value;
      end <= U64_MAX && end + |END_IDENTIFIER| <= |data| && data[end..end + |END_IDENTIFIER|] == END_IDENTIFIER
  }

  /** One pass of `exportResource`'s scan loop, with `ProbeAt` folded away. */
  lemma ExportStep(data: seq<Byte>, pos: nat, buf: seq<Byte>, count: nat, id: string)
    returns (next: nat, chunk: seq<Byte>, again: bool)
    requires pos <= |data| && |buf| == BUFFER_SIZE && BUFFER_SIZE * count <= pos + BUFFER_SIZE
    ensures |chunk| == BUFFER_SIZE && (again ==> next <= |data| && BUFFER_SIZE * (count + 1) <= next + BUFFER_SIZE)
    ensures again ==> ExportScan(data, pos, buf, count, id) == ExportScan(data, next, chunk, count + 1, id)
    ensures var r := ExportScan(data, pos, buf, count, id); !again && r.Matched? ==> Hit(data, r.start, r.h)
  {
    var pc := ProbeAt(data, pos, buf, count + 1);
    chunk := pc.1;
    var step := ExportNext(data, pos, count + 1, pc.0, chunk, id);
    again := step.Again?;
    next := if step.Again? then step.pos else pos;
    if !again && pc.0.Found? {
      assert FoundBy(data, pos, buf, count + 1, pc.0.start, pc.0.h);
    }
  }

  /** The scan of `exportResource` stops, if at a header, at one some pass found. */
  lemma {:induction false} ExportScanSound(data: seq<Byte>, pos: nat, buf: seq<Byte>, count: nat, id: string)
    requires pos <= |data| && |buf| == BUFFER_SIZE && BUFFER_SIZE * count <= pos + BUFFER_SIZE
    ensures var r := ExportScan(data, pos, buf, count, id); r.Matched? ==> Hit(data, r.start, r.h)
    decreases |data| + BUFFER_SIZE - BUFFER_SIZE * count
  {
    var next, chunk, again := ExportStep(data, pos, buf, count, id);
    if again {
      ExportScanSound(data, next, chunk, count + 1, id);
    }
  }

  /** A header that passes `exportResource`'s checks is an accepted one. */
  lemma GateAccepted(data: seq<Byte>, id: string, start: nat, h: ResourceHead)
    requires HeaderAt(data, start, h) && Text.Trim(h.id) == id && ExportGate(data, start, h).Ok?
    ensures Accepted(data, id, start, h)
  {
    GateVersion(data, start, h);
    GateTrailer(data, start, h);
  }

  /** The version check passes only for a version equal to 1.0.0, trailing zeros aside. */
  lemma GateVersion(data: seq<Byte>, start: nat, h: ResourceHead)
    requires start + HEAD_LEN <= |data| && ExportGate(data, start, h).Ok?
    ensures Util.ValidVersion(h.version) && Util.Compare(Util.Components(h.version).value, [1, 0, 0]) == Equal
  {
    CurrentVersion();
    Util.VersionCompareEqual(h.version, VERSION);
  }

  /** The checks pass only with `ODEND` right after `Length` bytes from the end of the header. */
  lemma GateTrailer(data: seq<Byte>, start: nat, h: ResourceHead)
    requires start + HEAD_LEN <= |data| && ExportGate(data, start, h).Ok?
    ensures Numbers.ParseUnsigned(h.length, U64_MAX).Some?
    ensures var end := start + HEAD_LEN + Numbers.ParseUnsigned(h.length, U64_MAX).value;
      end <= U64_MAX && end + |END_IDENTIFIER| <= |data| && data[end..end + |END_IDENTIFIER|] == END_IDENTIFIER
  {
  }

  /**
   * After a match, the output file is created exactly when the version, `Length`
   * and trailer checks pass, and the export succeeds only with an output of
   * `Size` bytes.
   */
  lemma FoundOutput(data: seq<Byte>, start: nat, h: ResourceHead, buf: seq<Byte>)
    requires start + HEAD_LEN <= |data|
    ensures ExportFound(data, start, h, buf).output.Some? <==> ExportGate(data, start, h).Ok?
    ensures var e := ExportFound(data, start, h, buf);
      e.result.Ok? ==> e.output.Some? && Numbers.ParseUnsigned(Text.Trim(h.size), U64_MAX) == Some(|e.output.value|)
  {
    var gate := ExportGate(data, start, h);
    if gate.Ok? {
      CopyOutput(data, gate.value, h, buf);
    }
  }

  /** The copy always leaves an output file, and succeeds only at `Size` bytes. */
  lemma CopyOutput(data: seq<Byte>, from: nat, h: ResourceHead, buf: seq<Byte>)
    requires from <= |data|
    ensures var e := ExportCopy(data, from, h, buf);
      && e.output.Some?
      && (e.result.Ok? ==> Numbers.ParseUnsigned(Text.Trim(h.size), U64_MAX) == Some(|e.output.value|))
  {
  }

  /**
   * `exportResource` creates an output file only for an accepted header, and
   * succeeds only when the output is as long as that header's `Size` says.
   */
  lemma ExportSound(data: seq<Byte>, id: string)
    ensures var e := ExportOf(data, id);
      && (e.result.Ok? ==> e.output.Some?)
      && (e.output.Some? ==> exists start, h :: Accepted(data, id, start, h))
      && (e.result.Ok? ==>
            exists start, h :: Accepted(data, id, start, h) && Numbers.ParseUnsigned(Text.Trim(h.size), U64_MAX) == Some(|e.output.value|))
  {
    ExportScanSound(data, 0, Zeros(), 0, id);
    match ExportScan(data, 0, Zeros(), 0, id)
    case Finished(_) =>
    case Matched(start, h, chunk) =>
      HitDecoded(data, start, h);
      FoundOutput(data, start, h, chunk);
      if ExportGate(data, start, h).Ok? {
        GateAccepted(data, id, start, h);
      }
  }
}
