/** A binary file opened for reading with Python 2's `open(path, 'rb')`: fixed
    contents and a cursor that `read` and `seek` move. */
module Files {
  import opened Bytes

  /** The `whence` argument of `f.seek`: 0, 1 and 2 in Python. */
  datatype Whence = FromStart | FromCurrent | FromEnd

  /** Where `f.seek(offset, whence)` tries to put the cursor. */
  function SeekTarget(pos: nat, size: nat, offset: int, whence: Whence): int
  {
    match whence
    case FromStart => offset
    case FromCurrent => pos + offset
    case FromEnd => size + offset
  }

  class InputFile {
    const contents: seq<byte>
    var pos: nat

    constructor Open(data: seq<byte>)
      ensures contents == data && pos == 0
    {
      contents := data;
      pos := 0;
    }

    /** `f.read(n)`: the next bytes, up to end-of-file; the cursor moves past them. */
    method Read(n: int) returns (chunk: seq<byte>)
      modifies this
      ensures chunk == ReadAt(contents, old(pos), n)
      ensures pos == old(pos) + |chunk|
    {
      chunk := ReadAt(contents, pos, n);
      pos := pos + |chunk|;
    }

    /** `f.seek(offset, whence)`: a target before the start of the file raises
        IOError (`ok` is false and the cursor stays); a target past the end is allowed. */
    method Seek(offset: int, whence: Whence) returns (ok: bool)
      modifies this
      ensures ok <==> SeekTarget(old(pos), |contents|, offset, whence) >= 0
      ensures pos == if ok then SeekTarget(old(pos), |contents|, offset, whence) else old(pos)
    {
      var target := SeekTarget(pos, |contents|, offset, whence);
      ok := target >= 0;
      if ok {
        pos := target;
      }
    }

    /** `f.tell()` */
    method Tell() returns (p: nat)
      ensures p == pos
    {
      p := pos;
    }
  }

  /** A file opened with `open(path, 'wb')`: everything written to it, in order. */
  class OutputFile {
    var data: seq<byte>

    constructor Create()
      ensures data == []
    {
      data := [];
    }

    /** `f.write(bytes)` */
    method Write(bytes: seq<byte>)
      modifies this
      ensures data == old(data) + bytes
    {
      data := data + bytes;
    }
  }
}
