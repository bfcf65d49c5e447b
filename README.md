# Overlay resource store: the record format and its chunked scans

Appender attaches resource files to the end of an executable (its "overlay")
and finds them again by id. Each resource is one record:

- a `ResourceHead` header, serialised with bincode;
- the resource bytes;
- the 5-byte trailer `ODEND`.

The header holds seven fields in order:

- the 16-byte magic `0x89 "OverlayData" 0D 0A 1A 0A`;
- the version `"1.0.0"`;
- `Id`, centre-padded to 64 bytes;
- `Name`, centre-padded to 255 bytes;
- `Length` and `Size`, each zero-padded to 13 digits;
- the `CompressMode` variant.

bincode writes each `Vec<u8>` or `String` as an 8-byte little-endian length followed by its bytes, and writes the enum as a 4-byte index. A header built within its budgets, with `Length` and `Size` both below 10^13, is therefore always 418 bytes. The magic sits 8 bytes in, after `Head`'s length prefix. That is the "−8" in the scanners, named `MAGIC_OFFSET` here.

The model covers these parts of the program:

- `Record`, `RecordFacts`: the header, its encoding and decoding, and the fixed field widths.
- `Text`, `Numbers`: the UTF-8 encoding, padding, trimming and number formatting and parsing the format relies on.
- `Util`: `find_subsequence` and `compareVersion`.
- `Files`: files as byte sequences, with a reader (`read`, `read_exact`, `seek`) and a writer (`write_all`).
- `Append`: `addResource`, as a function of the bytes it appends and as a method on a writer.
- `Scan`: `exportResource` and `getResourceList`. Each has recursive functions that follow the loops pass by pass, and methods that run the loops on an 8 KiB array buffer and are proved to agree with those functions. The quirks of the loops are kept:
  - the buffer is never cleared, so the magic is searched for in the whole buffer, stale bytes included;
  - only the first match in a chunk is considered;
  - a magic or `ODEND` split across two reads is missed;
  - an undecodable header in `exportResource` skips the position restore and the end-of-file test;
  - decompression does nothing.
- `ScanFacts`, `RoundTrip`: what the scans return:
  - on files with no magic;
  - soundness of every listed or exported header;
  - the round trip: a record appended by `addResource` is exported back byte for byte when the scan can see it.
- `Findings`: two inputs on which the loops do not do what they evidently mean to, and a corrected definition of each part with the intended property proved.

Panics of a debug build are results here. An `unwrap` of a version component that the comparison reaches and cannot parse, an `unwrap` of a bad `Length`, and a `usize` underflow or overflow end in `ScanError.Panic` or `AddError.Panic`. `compareVersion` stops at the first component that differs, so a version with an unparsable component after that point compares without a panic. A copy loop that would spin forever ends in `ScanError.Diverges`, together with the bytes it has written.

## Model

| member | source | states |
|---|---|---|
| Util.FindSubsequence | src/util.rs:11-13 | the result is the first index where the needle matches; `None` exactly when it matches nowhere |
| Util.FindFirst | src/util.rs:11-13 | a match at `i` with none before it makes the result `Some(i)` |
| Util.FindInPrefix | src/util.rs:11-13 | a match already in a prefix is not changed by bytes appended after it |
| Util.Split | src/util.rs:17-18 | splitting on `.` yields at least one component |
| Util.SplitJoin | src/util.rs:17-18 | no piece holds the separator, and joining the pieces with it gives the string back |
| Util.ParseAll | src/util.rs:17-33 | when every component parses, there is one `i32` per component, each the parse of its text |
| Util.CompareVersion | src/util.rs:16-44 | the loop over `max(n1, n2)` components returns `VersionCompare`, the walk that stops at the first difference and panics at an unparsable component it reaches |
| Util.VersionCompareValid | src/util.rs:16-44 | for two versions whose components all parse, the walk returns their `VersionOrder` |
| Util.LazyPanics | src/util.rs:23-39 | the walk panics exactly when a component that does not parse comes before any difference |
| Util.VersionCompareEqual | src/util.rs:16-44 | `Equal` only for two versions whose components all parse and compare equal |
| Util.CompareFromEqual | src/util.rs:23-43 | `Equal` exactly when the versions agree in every component, a missing one read as 0 |
| Util.CompareFromGreater | src/util.rs:34-39 | `Greater` exactly when the first differing component is larger in the first version |
| Util.CompareFromLess | src/util.rs:34-39 | `Less` exactly when the first differing component is larger in the second version |
| Util.CompareEqualIff | src/util.rs:16-44 | `Equal` exactly when the two component lists agree at every index, padded with 0 |
| Util.CompareReflexive | src/util.rs:16-44 | a version compares `Equal` to itself |
| Util.CompareAntisymmetric | src/util.rs:16-44 | swapping the two versions reverses the ordering |
| Util.TrailingZero | src/util.rs:24-33 | a trailing `.0` component does not change any comparison |
| Util.ShortVersionEqual | src/util.rs:16-44 | `"1.0"` and `"1.0.0"` are valid and compare `Equal` |
| Numbers.ToDecimalValue | src/core.rs:66-67 | the decimal digits of `n` denote `n` |
| Numbers.ToDecimalLength | src/core.rs:66-67 | `n` has at most `k` digits exactly when `n < 10^k` |
| Numbers.LeadingZeros | src/core.rs:66-67 | zero padding keeps a digit string's value |
| Numbers.ParseUnsigned | src/core.rs:206 | a successful parse is at most the type's maximum |
| Numbers.ParsePadded | src/core.rs:66-67 | a zero-padded decimal parses back to its number |
| Numbers.ParseI32 | src/util.rs:25 | a successful parse lies within the `i32` range |
| Numbers.ParseI32Digits | src/util.rs:25 | a non-empty run of digits within the `i32` range parses to its value |
| Numbers.ParseI32Negative | src/util.rs:25 | a `-` followed by digits up to 2^31 parses to the negated value |
| Numbers.LeRoundTrip | src/core.rs:84-91 | the little-endian length prefix decodes back to the length that fits it |
| Numbers.LeBytesValue | src/core.rs:84-91 | re-encoding a decoded length prefix gives the same bytes |
| Numbers.LeValueBound | src/core.rs:89-91 | a `k`-byte prefix denotes a value below `256^k` |
| Text.EncodeAppend | src/core.rs:84-86 | UTF-8 encoding of a concatenation is the concatenation of the encodings |
| Text.DecodeEncode | src/core.rs:84-91 | decoding the UTF-8 encoding of a string gives the string |
| Text.EncodeDecode | src/core.rs:89-91 | a byte string that decodes is the encoding of what it decodes to |
| Text.CharsAtMostBytes | src/core.rs:56-65 | a string has at most as many chars as UTF-8 bytes |
| Text.TrimStart | src/core.rs:193 | what is cut off the front is whitespace, and the result starts with a non-whitespace char |
| Text.TrimEnd | src/core.rs:193 | what is cut off the back is whitespace, and the result ends with a non-whitespace char |
| Text.TrimIsTrimmed | src/core.rs:193 | the result of `trim` has no whitespace at either end |
| Text.PadCenterBytes | src/core.rs:64-65 | centring to `width - len + chars` chars gives exactly `width` bytes, the odd space on the right |
| Text.TrimPadCenter | src/core.rs:64-65 | trimming a centred, already trimmed string gives it back |
| Record.DecodeBytes | src/core.rs:89-91 | a decoded byte string ends 8 prefix bytes plus its length after `pos`, within the input |
| Record.DecodeStr | src/core.rs:89-91 | a decoded string ends after `pos` and within the input |
| RecordFacts.DecodeBytesAt | src/core.rs:84-91 | a byte string is decoded back from its encoding, whatever follows |
| RecordFacts.DecodeStrAt | src/core.rs:84-91 | a string is decoded back from its encoding, whatever follows |
| RecordFacts.DecodeModeAt | src/core.rs:84-91 | the compression mode is decoded back from its variant index |
| RecordFacts.FromToBytes | src/core.rs:84-91 | `from(to_bytes(h) ++ rest) == h` for every encodable header |
| RecordFacts.FromPrefix | src/core.rs:89-91 | a decoded header is the re-encoding of a prefix of the input |
| RecordFacts.ToBytesInjective | src/core.rs:84-86 | distinct encodable headers have distinct encodings |
| RecordFacts.CenteredField | src/core.rs:64-65 | a centred field has exactly its byte budget and trims back to a trimmed value |
| RecordFacts.NewPadding | src/core.rs:64-65 | `new` pads `Id` to 64 and `Name` to 255 bytes |
| RecordFacts.NumberField | src/core.rs:66-67 | a padded number is all digits, 13 wide exactly when below 10^13, and parses back |
| RecordFacts.NewNumbers | src/core.rs:66-67 | `Length` parses to the length and the trimmed `Size` to the size |
| RecordFacts.NewLength | src/core.rs:55-76 | a header built within budget is at least 418 bytes, exactly 418 when both numbers are below 10^13 |
| RecordFacts.DefaultLength | src/core.rs:51-53 | the default header is 418 bytes |
| RecordFacts.NewEncodable | src/core.rs:55-71 | every field of a header built within budget fits bincode's length prefix |
| RecordFacts.MagicInHeader | src/core.rs:58-63 | in an encoded header the magic occupies bytes 8 to 23 |
| Files.ReadInto | src/core.rs:170 | a read returns as many bytes as fit and remain, copied to the front of the buffer, and leaves the rest of the buffer as it was |
| Files.ReadExactAt | src/core.rs:182 | `read_exact` succeeds exactly when enough bytes remain, and returns them |
| Files.Reader.Open | src/core.rs:162 | an opened file holds its bytes at position 0 |
| Files.Reader.Read | src/core.rs:170 | the method performs `ReadInto` on the array and advances the position |
| Files.Reader.ReadExact | src/core.rs:182 | the method performs `ReadExactAt` and moves past what it read |
| Files.Reader.Seek | src/core.rs:181 | the position becomes the one requested |
| Files.Writer.Create | src/core.rs:217 | a created file holds the given bytes |
| Files.Writer.WriteAll | src/core.rs:136 | the bytes are appended to the file |
| Append.AddResource | src/core.rs:103-151 | the target gains exactly `Appended`'s bytes, and nothing on an error |
| Append.CopyResource | src/core.rs:142-146 | the 8 KiB copy loop appends the whole resource |
| Append.AppendedSucceeds | src/core.rs:132-135 | `addResource` succeeds exactly when `Id` and `Name` fit their budgets and the length is below 10^13; it panics exactly when a budget is exceeded |
| Append.NewHeader | src/core.rs:132 | the header of a successful append is 418 bytes, decodes back, holds the magic at 8, and records the length and, for a trimmed id, the id |
| Append.AppendedLayout | src/core.rs:136-149 | the appended bytes split into the encoded header, the resource and `ODEND` |
| Scan.ProbeAt | src/core.rs:170-187 | one read and search keeps the buffer size, and a miss or a hit reports the byte count of the read |
| Scan.ExportGate | src/core.rs:197-212 | the version, `Length` and trailer checks send the copy to the end of the header; which error each failed check gives is stated in `RoundTrip.GateVersions` and `RoundTrip.GateTrailers` |
| Scan.ExportNext | src/core.rs:173-254 | a pass either goes on further into the file or stops with a trimmed-id match from its probe, or with an error and no output |
| Scan.ExportScan | src/core.rs:168-256 | the scan ends at a header in the file whose trimmed `Id` is the one asked for, or with an error and no output |
| Scan.ListNext | src/core.rs:277-296 | a pass that goes on moves forward in the file |
| Scan.ProbeChunk | src/core.rs:170-187 | the method reads, searches and decodes exactly as `ProbeAt` says, and leaves the position where the source does |
| Scan.CopyToOutput | src/core.rs:222-237 | the copy loop writes what `CopyOut` says, or is marked as never ending |
| Scan.CopyPass | src/core.rs:223-236 | one copy pass either finishes as `CopyOut` says or moves forward leaving `CopyOut` unchanged |
| Scan.CheckMatched | src/core.rs:197-212 | the method's checks give `ExportGate` |
| Scan.ExportMatched | src/core.rs:197-245 | after a match the method ends as `ExportFound` says |
| Scan.ExportDecide | src/core.rs:184-254 | the method's decision after a probe is `ExportNext`, with the position restored when it goes on |
| Scan.ExportPass | src/core.rs:169-254 | one pass of the loop is the probe followed by `ExportNext` |
| Scan.ExportResource | src/core.rs:158-256 | `exportResource` ends as `ExportOf` says |
| Scan.ListDecide | src/core.rs:277-296 | the method's decision after a probe is `ListNext` |
| Scan.GetResourceList | src/core.rs:260-299 | `getResourceList` returns `ListOf` |
| ScanFacts.NoLeadNoMagic | src/core.rs:173 | a chunk with no 0x89 holds no magic |
| ScanFacts.ProbeMiss | src/core.rs:170-173 | in a file and buffer with no 0x89 every probe misses |
| ScanFacts.ExportNoMagic | src/core.rs:158-256 | `exportResource` on a file with no 0x89 reports "Resource not found" and writes nothing |
| ScanFacts.ListNoMagic | src/core.rs:260-299 | `getResourceList` on a file with no 0x89 returns the empty list |
| ScanFacts.ProbeFound | src/core.rs:175-184 | a probe that finds a header found it decoded from 418 bytes of the file |
| ScanFacts.ListUnfold | src/core.rs:272-297 | one pass of the list loop adds at most one header, and only a decoded one |
| ScanFacts.ListScanSound | src/core.rs:272-297 | every header the loop adds decodes from 418 bytes of the file |
| ScanFacts.ListSound | src/core.rs:260-299 | every header `getResourceList` returns decodes from 418 bytes of the file at some position |
| ScanFacts.ExportScanSound | src/core.rs:168-193 | the header the scan stops at decodes from the file and carries the requested id |
| ScanFacts.GateAccepted | src/core.rs:197-212 | a header that passes the checks has version 1.0.0 by `compareVersion`, a `Length` that parses, and `ODEND` right after `Length` bytes |
| ScanFacts.GateTrailer | src/core.rs:206-212 | past the checks, `Length` parses and `ODEND` follows that many bytes after the header |
| ScanFacts.FoundOutput | src/core.rs:214-245 | the output file exists exactly when the checks pass, and success means its length is the trimmed `Size` |
| ScanFacts.ExportSound | src/core.rs:158-256 | an export that writes output found an accepted header for the id, and success means the output is `Size` bytes long |
| RoundTrip.CopyPayload | src/core.rs:222-237 | a payload with no `ODEND`, whose trailer does not cross a chunk, is copied out exactly |
| RoundTrip.ExportSkipFrom | src/core.rs:168-175 | whole chunks in which no magic starts are read past without stopping |
| RoundTrip.ExportReaches | src/core.rs:168-193 | a header whose magic is the first magic of the file and lies within one chunk stops the scan there |
| RoundTrip.GateOpens | src/core.rs:197-212 | a version-1.0.0 header whose `Length` is followed by `ODEND` passes the checks |
| RoundTrip.ExportRecordAt | src/core.rs:158-256 | a located record that describes its payload is exported as exactly that payload |
| RoundTrip.PrefixOfMagic | src/core.rs:84-86 | an encoded header begins with the length prefix of its magic, 16 as 8 little-endian bytes |
| RoundTrip.MagicFree | src/core.rs:132-149 | existing bytes with no magic, followed by a header's length prefix, hold no magic before the header's own |
| RoundTrip.RecordPlaced | src/core.rs:132-149 | a record appended to bytes with no magic sits right after them, decodable, with its magic in place and the first in the file |
| RoundTrip.ExportRoundTrip | src/core.rs:103-256 | `addResource` to a file with no magic, then `exportResource` of the same id, gives back the payload, whatever is appended later |
| RoundTrip.ExportUntrimmed | src/core.rs:193 | an `Id` asked for with whitespace at either end matches no stored `Id`, so the export fails and writes nothing |
| RoundTrip.GateVersions | src/core.rs:197-204 | the version check fails with `VersionTooOld` exactly when `compareVersion` gives `Less`, with `VersionTooNew` exactly when it gives `Greater`, and panics when it panics |
| RoundTrip.GateTrailers | src/core.rs:206-212 | after an equal version: a `Length` that does not parse or overflows panics, a file that ends before `ODEND` is `UnexpectedEof`, and other bytes there are `TrailerMissing` |
| RoundTrip.ExportVersionChecked | src/core.rs:193-204 | on the header the scan stops at, an older version gives the "upgrade" error and a newer one the "lower" error, both with no output; for a valid version, exactly when it is older, or newer, than 1.0.0 |
| RoundTrip.ExportTrailerChecked | src/core.rs:193-212 | on the header the scan stops at, with an equal version: a bad `Length` panics, a short file is `UnexpectedEof`, and a missing `ODEND` is the "incomplete" error, all with no output |
| RoundTrip.ListUndecodable | src/core.rs:277-290 | a pass whose magic points at bytes that do not decode ends `getResourceList` with `BadHeader`, whatever it had collected |
| RoundTrip.ListOfUndecodable | src/core.rs:260-299 | a file whose first magic lies in its first chunk and heads an undecodable header makes `getResourceList` fail with `BadHeader` |
| RoundTrip.ListOneAt | src/core.rs:272-298 | a file shorter than one chunk whose first magic heads a header lists that header alone |
| RoundTrip.ListRoundTrip | src/core.rs:103-299 | `addResource` to a file with no magic, the whole under 8192 bytes, then `getResourceList` lists exactly the new header |
| Findings.MagicAlone | src/util.rs:11-13 | the magic holds no second 0x89, so a match in the first 16 bytes is the first match |
| Findings.ListStale | src/core.rs:272-297 | a file that is one record of 8192 to 8200 bytes makes `getResourceList` fail with `UnexpectedEof` |
| Findings.ListFreshOne | src/core.rs:272-297 | searching only the bytes just read lists that record |
| Findings.ProbeFresh | src/core.rs:274-277 | the corrected probe searches only the bytes just read |
| Findings.StaleProbe | src/core.rs:277-286 | after a short second read the stale first-chunk magic is found again, and `read_exact` runs past the end |
| Findings.CopyStraddle | src/core.rs:222-237 | with `ODEND` split across two reads at the end of the file, the copy loop writes the payload and `ODEND` and never ends |
| Findings.ExportStraddle | src/core.rs:103-256 | `addResource` then `exportResource` of a payload whose length is 8188 to 8191 modulo 8192 never returns |
| Findings.CopyCounted | src/core.rs:219-237 | the corrected copy of `Length` bytes in 8 KiB pieces writes exactly those bytes |
| Findings.CopyCountedChecked | src/core.rs:219-242 | the corrected copy outputs exactly `Length` bytes, and succeeds exactly when `Size` says that many |
| Findings.ExportFoundCounted | src/core.rs:193-245 | a corrected export succeeds only with the bytes between the header and an `ODEND`, as many as `Size` says |
| Findings.ExportRoundTripCounted | src/core.rs:103-256 | with the corrected copy, `addResource` then `exportResource` gives back any payload, `ODEND` in it or across a chunk included |

## Left out

- `src/main.rs`, `src/validator.rs`, `build.rs` and the tests are not part of this model. They hold the command line, argument validation and build scripting.
- `compressionFile` (src/util.rs:63-81) is not modelled. `addResource` takes the resource bytes as they are written, already compressed when a grade was given, and only the `CompressMode` flag records the grade.
- Paths are not modelled: the joining of relative paths, `is_dir` with `Name`, and the `fs::copy` to an output path. Files are byte sequences handed in as parameters, and the export's output is returned.
- Errors of `open`, `read`, `write_all`, `metadata` and `seek` are not modelled. Only `read_exact`'s `UnexpectedEof` is.
- A `read` returns as many bytes as fit and remain, as a regular file does. Shorter reads in the middle of a file are not modelled.
- Release-build wrap-around is not modelled: not of `size - 8` (src/core.rs:175, 279), of `MAX - len + chars` (src/core.rs:64-65), or of `startSize + getLen + Length` (src/core.rs:207). Debug-build panics are modelled as error results.
- An infinite copy loop is modelled as the `Diverges` outcome with the bytes written so far. Non-termination itself is not.
- `Length` and `Size` are parsed as 64-bit `usize`/`u64`.
- The decompression branch (src/core.rs:224-228) is empty in the source and modelled as doing nothing.
- RoundTrip.ExportRoundTrip needs these conditions, which the program itself imposes:
  - the `Id` has no whitespace at either end, because the export compares the trimmed stored `Id` with the `Id` as given (src/core.rs:193); RoundTrip.ExportUntrimmed shows that any other `Id` is never exported;
  - the existing file bytes hold no copy of the magic (the scan stops at the first magic in a chunk, so an earlier one would be taken for a header);
  - the record's magic lies within one 8 KiB chunk;
  - the payload holds no `ODEND`, and its trailer does not cross a chunk of the copy;
  - the offset of the end of the payload, `|host| + 418 + |payload|`, fits a `u64`, as the `usize` sum at src/core.rs:207 must.
  Without them the scan can stop at another header, miss the record, copy the wrong bytes, or panic. Findings.ExportStraddle and Findings.ExportRoundTripCounted carry the same `Id` and `u64` conditions.
- ScanFacts.ListNoMagic: stated for a file with no 0x89 byte, not merely no magic. The buffer is never cleared, so after a short read the stale tail of the previous chunk can join the new bytes into a magic that the file itself does not hold.
- ScanFacts.ExportNoMagic: stated for a file with no 0x89 byte, for the same reason.
- RoundTrip.ListRoundTrip: proved only for a file under 8192 bytes, which one read covers. A longer file needs the magic-per-chunk conditions of the export, and a record of 8192 to 8200 bytes is the first row under "## Findings".
- The corrected definitions in `Findings` stand beside the model of the program as written. The `Scan` methods follow the source, and the corrected ones are functions only.

## Findings

| source | as written | input that shows it | evidently intended | confidence | as-written member | corrected member |
|---|---|---|---|---|---|---|
| src/core.rs:274-286 | the magic is searched for in the whole 8 KiB buffer after each read, including bytes a short read did not overwrite | a file that is one record of 8192 to 8200 bytes, e.g. a resource of 7769 bytes: the second read finds the first chunk's magic again, takes it for a header at 8192, and `read_exact` fails | search only the `nbytes` just read; the file lists its one record | not executed | Findings.ListStale | Findings.ListFreshOne |
| src/core.rs:222-237 | the copy loop stops only when one read leaves `ODEND` whole in the buffer | a resource of 8188 bytes with no `ODEND` in it, appended last: `ODEND` is split between two reads, the last read returns 0, and the loop never ends | copy exactly the `Length` bytes the checks before the loop vouched for; the resource is exported | not executed | Findings.ExportStraddle | Findings.ExportRoundTripCounted |
