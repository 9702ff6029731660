/**
 * The byte streams the archiver and extractor copy through: an input stream
 * over a byte sequence, an output stream that collects what is written, and the
 * zip output stream's view as a sequence of entries. The zip container encoding
 * itself is abstract (ZipCodec).
 */
module Streams {
  import opened Wrappers
  import opened FileSystem

  /** ZipUtil.BUFFER_SIZE and ZipUtil.NO_OFFSET. */
  const BUFFER_SIZE: nat := 1024
  const NO_OFFSET: nat := 0

  /** One archive entry: its name and, for a file, its bytes. */
  datatype Entry = Entry(name: string, data: seq<byte>)

  /** ZipEntry.isDirectory: the name ends with '/'. */
  predicate IsDirectoryEntry(e: Entry) {
    |e.name| > 0 && e.name[|e.name| - 1] == '/'
  }

  /**
   * java.util.zip's writer and reader, seen through the bytes of an archive file:
   * what ZipOutputStream writes for a sequence of entries, and the entries ZipFile
   * reads back (None when the bytes are not a readable archive).
   */
  datatype ZipCodec = ZipCodec(encode: seq<Entry> -> seq<byte>, decode: seq<byte> -> Option<seq<Entry>>)

  /** The reader returns, in order, the entries the writer wrote. */
  ghost predicate Faithful(codec: ZipCodec) {
    forall a :: codec.decode(codec.encode(a)) == Some(a)
  }

  function Min(a: nat, b: nat): nat {
    if a < b then a else b
  }

  /** A stream over a byte sequence; `pos` bytes have been consumed. */
  class InputStream {
    const data: seq<byte>
    var pos: nat

    ghost predicate Valid()
      reads this
    {
      pos <= |data|
    }

    constructor (data: seq<byte>)
      ensures Valid() && this.data == data && pos == 0
    {
      this.data := data;
      pos := 0;
    }

    /**
     * InputStream.read(buf, off, len): -1 at the end of the stream, otherwise
     * between 1 and `len` of the next bytes, copied into buf[off..].
     */
    method Read(buf: array<byte>, off: nat, len: nat) returns (n: int)
      requires Valid() && 0 < len && off + len <= buf.Length
      modifies this, buf
      ensures Valid()
      ensures old(pos) == |data| ==> n == -1 && pos == old(pos)
      ensures old(pos) < |data| ==> 0 < n <= len && pos == old(pos) + n && buf[off..off + n] == data[old(pos)..pos]
    {
      if pos == |data| {
        return -1;
      }
      var most := Min(len, |data| - pos);
      n :| 0 < n <= most;
      forall i | 0 <= i < n {
        buf[off + i] := data[pos + i];
      }
      pos := pos + n;
    }
  }

  /** A stream that collects every byte written to it. */
  class OutputStream {
    var written: seq<byte>

    constructor ()
      ensures written == []
    {
      written := [];
    }

    /** OutputStream.write(buf, off, len). */
    method Write(buf: array<byte>, off: nat, len: nat)
      requires off + len <= buf.Length
      modifies this
      ensures written == old(written) + buf[off..off + len]
    {
      written := written + buf[off..off + len];
    }
  }

  /**
   * The copy loop of writeFileToZip and extractZipEntry: read up to BUFFER_SIZE
   * bytes, write exactly the bytes read, until read returns -1.
   */
  method CopyStream(input: InputStream, output: OutputStream, buf: array<byte>)
    requires input.Valid() && buf.Length == BUFFER_SIZE
    modifies input, output, buf
    ensures input.Valid() && input.pos == |input.data|
    ensures output.written == old(output.written) + input.data[old(input.pos)..]
  {
    ghost var start := input.pos;
    var length := input.Read(buf, NO_OFFSET, BUFFER_SIZE);
    while length != -1
      invariant input.Valid() && start <= input.pos
      invariant length == -1 ==> input.pos == |input.data|
      invariant length != -1 ==> 0 < length <= BUFFER_SIZE
      invariant length != -1 ==> output.written + buf[..length] == old(output.written) + input.data[start..input.pos]
      invariant length == -1 ==> output.written == old(output.written) + input.data[start..input.pos]
      decreases |input.data| - input.pos, if length == -1 then 0 else 1
    {
      output.Write(buf, NO_OFFSET, length);
      ghost var before := input.pos;
      length := input.Read(buf, NO_OFFSET, BUFFER_SIZE);
      assert input.data[start..input.pos] == input.data[start..before] + input.data[before..input.pos];
    }
    assert input.data[old(input.pos)..] == input.data[start..input.pos];
  }

  /**
   * ZipOutputStream as a sequence of entries: the closed ones and, while an entry
   * is open, the one being written through `current`.
   */
  class ZipOutputStream {
    var closed: seq<Entry>
    var open: Option<string>
    var current: OutputStream

    function Entries(): seq<Entry>
      reads this, current
    {
      closed + if open.Some? then [Entry(open.value, current.written)] else []
    }

    constructor ()
      ensures Entries() == [] && open.None?
    {
      closed := [];
      open := None;
      current := new OutputStream();
    }

    /** putNextEntry: closes the open entry, if any, and starts a new, empty one. */
    method PutNextEntry(name: string)
      modifies this
      ensures fresh(current) && open == Some(name) && current.written == []
      ensures closed == old(Entries())
      ensures Entries() == old(Entries()) + [Entry(name, [])]
    {
      CloseEntry();
      current := new OutputStream();
      open := Some(name);
    }

    /** closeEntry: the open entry, if any, becomes closed. */
    method CloseEntry()
      modifies this
      ensures open.None? && current == old(current)
      ensures Entries() == old(Entries())
    {
      if open.Some? {
        closed := closed + [Entry(open.value, current.written)];
        open := None;
      }
    }
  }
}
