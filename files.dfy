/**
 * The file handles the core uses, over byte sequences: a `Reader` is an open
 * file (`read`, `read_exact`, `seek`, `stream_position`) and a `Writer` is a file
 * opened for appending (`write_all`). A regular file's `read` fills as much of
 * the buffer as the file has left and leaves the rest of the buffer as it was.
 */
module Files {
  import opened Types

  /** What one `read` does: the byte count, and the buffer afterwards. */
  function ReadInto(data: seq<Byte>, pos: nat, buf: seq<Byte>): (r: (nat, seq<Byte>))
    ensures |r.1| == |buf|
    ensures r.0 == Min(|buf|, |data| - Min(pos, |data|))
    ensures r.1[..r.0] == data[Min(pos, |data|)..Min(pos, |data|) + r.0] && r.1[r.0..] == buf[r.0..]
  {
    var p := Min(pos, |data|);
    var n := Min(|buf|, |data| - p);
    (n, data[p..p + n] + buf[n..])
  }

  function Min(x: nat, y: nat): nat { if x < y then x else y }

  /** `read_exact`: exactly `len` bytes from `pos`, or `UnexpectedEof`. */
  function ReadExactAt(data: seq<Byte>, pos: nat, len: nat): (r: Option<seq<Byte>>)
    ensures r.Some? <==> pos + len <= |data|
    ensures r.Some? ==> |r.value| == len && r.value == data[pos..pos + len]
  {
    if pos + len <= |data| then Some(data[pos..pos + len]) else None
  }

  /** An open file: its bytes and the current position. */
  class Reader {
    const data: seq<Byte>
    var pos: nat

    constructor Open(data: seq<Byte>)
      ensures this.data == data && pos == 0
    {
      this.data := data;
      pos := 0;
    }

    /** `read(&mut buf)`: copies the next bytes into the front of `buf`. */
    method Read(buf: array<Byte>) returns (n: nat)
      modifies this, buf
      ensures (n, buf[..]) == ReadInto(data, old(pos), old(buf[..]))
      ensures pos == old(pos) + n
    {
      var p := Min(pos, |data|);
      n := Min(buf.Length, |data| - p);
      for i := 0 to n
        invariant buf[..i] == data[p..p + i]
        invariant buf[i..] == old(buf[i..]) && pos == old(pos)
      {
        buf[i] := data[p + i];
        assert buf[..i + 1] == buf[..i] + [buf[i]];
      }
      assert buf[..] == buf[..n] + buf[n..];
      pos := pos + n;
    }

    /**
     * `read_exact`: exactly `len` bytes, or `None` for `UnexpectedEof`, after
     * which the rest of the file has been consumed.
     */
    method ReadExact(len: nat) returns (r: Option<seq<Byte>>)
      modifies this
      ensures r == ReadExactAt(data, old(pos), len)
      ensures pos == if r.Some? then old(pos) + len else if old(pos) < |data| then |data| else old(pos)
    {
      if pos + len <= |data| {
        r := Some(data[pos..pos + len]);
        pos := pos + len;
      } else {
        r := None;
        if pos < |data| {
          pos := |data|;
        }
      }
    }

    /** `seek(SeekFrom::Start(p))`: any position, even past the end, is accepted. */
    method Seek(p: nat)
      modifies this
      ensures pos == p
    {
      pos := p;
    }
  }

  /** A file opened for writing: everything written so far. */
  class Writer {
    var data: seq<Byte>

    constructor Create(data: seq<Byte>)
      ensures this.data == data
    {
      this.data := data;
    }

    /** `write_all`. */
    method WriteAll(bytes: seq<Byte>)
      modifies this
      ensures data == old(data) + bytes
    {
      data := data + bytes;
    }
  }
}
