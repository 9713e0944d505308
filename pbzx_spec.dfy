/** What `processNBI.parse_pbzx` does to a pbzx container, as functions of the
    container's bytes: the sections (output files) it writes, in order, or the
    error it raises and the files it had written by then. */
module PbzxSpec {
  import opened Bytes

  /** A `.cpio` section holds a raw chunk copied verbatim; a `.cpio.xz` section
      collects consecutive xz streams. */
  datatype Kind = Cpio | CpioXz

  /** One output file `<path>.partNN.cpio[.xz]`: its kind and the bytes written to it. */
  datatype Section = Section(kind: Kind, content: seq<byte>)

  datatype Failure =
    | NotPbzx     // raise "Error: Not a pbzx file"
    | ShortField  // struct.unpack('>Q', ...) of a flags or length word cut short by end-of-file
    | EmptyWrite  // file.write(None): seekread returns None for a zero-length read
    | BadFooter   // raise "Error: Footer is not xar file footer"

  /** `Parsed(sections)`: the function returned; the names it returns are
      `PartNames.Names(path, sections)`. `Failed(error, written)`: it raised, after
      writing the files in `written`. */
  datatype Outcome =
    | Parsed(sections: seq<Section>)
    | Failed(error: Failure, written: seq<Section>)

  /** The result of one pass through the loop body. */
  datatype Progress =
    | Next(pos: nat, flags: nat, sections: seq<Section>)
    | Stop(error: Failure, written: seq<Section>)

  /** `xar_f.write(bytes)`: the open `.cpio.xz` section is always the last one. */
  function AppendToOpen(sections: seq<Section>, bytes: seq<byte>): seq<Section>
    requires sections != []
  {
    var open := sections[|sections| - 1];
    sections[..|sections| - 1] + [Section(open.kind, open.content + bytes)]
  }

  /** Two writes to the open section append both, in order. */
  lemma AppendToOpenTwice(sections: seq<Section>, a: seq<byte>, b: seq<byte>)
    requires sections != []
    ensures AppendToOpen(AppendToOpen(sections, a), b) == AppendToOpen(sections, a + b)
  {
    var once := AppendToOpen(sections, a);
    var open := sections[|sections| - 1];
    assert once[..|once| - 1] == sections[..|sections| - 1];
    assert open.content + a + b == open.content + (a + b);
  }

  /** The raw branch: the chunk's `length` bytes, read from `start`, become a
      `.cpio` section of their own, and a fresh `.cpio.xz` section is opened
      after it. */
  function RawChunk(data: seq<byte>, start: nat, flags: nat, length: nat, sections: seq<Section>): (p: Progress)
    requires start <= |data|
    ensures p.Next? ==> start <= p.pos <= |data|
  {
    if length == 0 then
      Stop(EmptyWrite, sections + [Section(Cpio, [])])
    else
      var body := ReadAt(data, start, length);
      Next(start + |body|, flags, sections + [Section(Cpio, body), Section(CpioXz, [])])
  }

  /** The xz branch, with the cursor at `at`, just past the Header Magic: the
      magic and the `length - 6` bytes after it go to the open section, then
      the two bytes before the cursor must be the Footer Magic. */
  function XzChunk(data: seq<byte>, at: nat, flags: nat, length: int, sections: seq<Section>): (p: Progress)
    requires 6 <= at <= |data| && sections != []
    ensures p.Next? ==> at <= p.pos <= |data|
  {
    var bodyLength := length - 6;
    if bodyLength == 0 then
      Stop(EmptyWrite, AppendToOpen(sections, XzHeaderMagic))
    else
      var body := ReadAt(data, at, bodyLength);
      var end := at + |body|;
      var written := AppendToOpen(sections, XzHeaderMagic + body);
      // seekread(f, offset=-2, length=2): the two bytes that end at the cursor
      if data[end - 2..end] != XzFooterMagic then Stop(BadFooter, written)
      else Next(end, flags, written)
  }

  /** One pass through the loop body of parse_pbzx, with the cursor at `q`. */
  function Chunk(data: seq<byte>, q: nat, sections: seq<Section>): (p: Progress)
    requires q <= |data| && sections != []
    ensures p.Next? ==> q < p.pos <= |data|
  {
    match UnpackU64(ReadAt(data, q, 8))
    case None => Stop(ShortField, sections)
    case Some(flags) =>
      match UnpackU64(ReadAt(data, q + 8, 8))
      case None => Stop(ShortField, sections)
      case Some(length) =>
        var p := q + 16;
        var lookahead := ReadAt(data, p, 6);
        if lookahead != XzHeaderMagic then
          // seek(-6, SEEK_CUR) from wherever the lookahead read stopped
          RawChunk(data, p + |lookahead| - 6, flags, length, sections)
        else
          XzChunk(data, p + 6, flags, length, sections)
  }

  /** The loop `while (flags & (1 << 24))`, with the cursor at `q`. */
  function Chunks(data: seq<byte>, q: nat, flags: nat, sections: seq<Section>): Outcome
    requires q <= |data| && sections != []
    decreases |data| - q
  {
    if !HasMoreChunks(flags) then Parsed(sections)
    else
      match Chunk(data, q, sections)
      case Stop(e, w) => Failed(e, w)
      case Next(q', flags', sections') => Chunks(data, q', flags', sections')
  }

  /** parse_pbzx on a file holding `data`. */
  function Parse(data: seq<byte>): Outcome
  {
    if ReadAt(data, 0, 4) != PbzxMagic then Failed(NotPbzx, [])
    else
      match UnpackU64(ReadAt(data, 4, 8))
      case None => Failed(ShortField, [])
      case Some(flags) => Chunks(data, 12, flags, [Section(CpioXz, [])])
  }

  /** `later` is `earlier` with bytes appended to its last section and possibly
      further sections after it: nothing already written is changed. */
  ghost predicate Extends(later: seq<Section>, earlier: seq<Section>)
  {
    && earlier != []
    && |later| >= |earlier|
    && later[..|earlier| - 1] == earlier[..|earlier| - 1]
    && later[|earlier| - 1].kind == earlier[|earlier| - 1].kind
    && earlier[|earlier| - 1].content <= later[|earlier| - 1].content
  }

  /** Part 0 is `.cpio.xz`, then `.cpio` and `.cpio.xz` alternate, ending on a
      `.cpio.xz`; every `.cpio` section holds at least one byte. */
  ghost predicate Alternating(ss: seq<Section>)
  {
    && |ss| % 2 == 1
    && (forall i :: 0 <= i < |ss| ==> (ss[i].kind == Cpio <==> i % 2 == 1))
    && (forall i :: 0 <= i < |ss| && ss[i].kind == Cpio ==> ss[i].content != [])
  }

  function CountCpio(ss: seq<Section>): nat
  {
    if ss == [] then 0 else CountCpio(ss[..|ss| - 1]) + (if ss[|ss| - 1].kind == Cpio then 1 else 0)
  }

  function FilesOf(o: Outcome): seq<Section>
  {
    match o
    case Parsed(ss) => ss
    case Failed(_, w) => w
  }

  // ----- the first four bytes -----

  /** Chunks never reports a bad leading magic. */
  lemma {:induction false} ChunksNeverNotPbzx(data: seq<byte>, q: nat, flags: nat, ss: seq<Section>)
    requires q <= |data| && ss != []
    ensures !(Chunks(data, q, flags, ss).Failed? && Chunks(data, q, flags, ss).error == NotPbzx)
    decreases |data| - q
  {
    if HasMoreChunks(flags) {
      var p := Chunk(data, q, ss);
      if p.Next? {
        ChunksNeverNotPbzx(data, p.pos, p.flags, p.sections);
      }
    }
  }

  /** A file whose first four bytes are not "pbzx" (a shorter file included)
      fails with NotPbzx before any section is opened, and only such a file does. */
  lemma NotPbzxBeforeAnyOutput(data: seq<byte>)
    ensures Parse(data) == Failed(NotPbzx, []) <==> (|data| < 4 || data[..4] != PbzxMagic)
    ensures Parse(data).Failed? && Parse(data).error == NotPbzx ==> Parse(data).written == []
  {
    if |data| >= 4 && data[..4] == PbzxMagic {
      assert ReadAt(data, 0, 4) == PbzxMagic;
      match UnpackU64(ReadAt(data, 4, 8))
      case None =>
      case Some(flags) => ChunksNeverNotPbzx(data, 12, flags, [Section(CpioXz, [])]);
    }
  }

  // ----- the more-chunks bit -----

  lemma ExtendsTransitive(a: seq<Section>, b: seq<Section>, c: seq<Section>)
    requires Extends(a, b) && Extends(b, c)
    ensures Extends(a, c)
  {
    if |c| < |b| {
      assert a[|c| - 1] == a[..|b| - 1][|c| - 1] == b[..|b| - 1][|c| - 1];
      assert a[..|c| - 1] == a[..|b| - 1][..|c| - 1];
    }
  }

  /** One pass through the loop only appends: to the open section, or new sections. */
  lemma ChunkAppends(data: seq<byte>, q: nat, ss: seq<Section>)
    requires q <= |data| && ss != []
    ensures Extends(match Chunk(data, q, ss) case Next(_, _, s) => s case Stop(_, w) => w, ss)
  {
  }

  /** The whole loop only appends: files are never rewritten, whether it returns or raises. */
  lemma {:induction false} ChunksAppend(data: seq<byte>, q: nat, flags: nat, ss: seq<Section>)
    requires q <= |data| && ss != []
    ensures Extends(FilesOf(Chunks(data, q, flags, ss)), ss)
    decreases |data| - q
  {
    if HasMoreChunks(flags) {
      var p := Chunk(data, q, ss);
      ChunkAppends(data, q, ss);
      if p.Next? {
        ChunksAppend(data, p.pos, p.flags, p.sections);
        ExtendsTransitive(FilesOf(Chunks(data, p.pos, p.flags, p.sections)), p.sections, ss);
      }
    }
  }

  /** Parse returns exactly the single empty `part00.cpio.xz` section if and
      only if the file is "pbzx" followed by a flags word whose bit 24 is clear. */
  lemma OnlyPart00WithoutMoreBit(data: seq<byte>)
    ensures Parse(data) == Parsed([Section(CpioXz, [])]) <==>
      (|data| >= 12 && data[..4] == PbzxMagic && !HasMoreChunks(FromBigEndian(data[4..12])))
  {
    var part00 := [Section(CpioXz, [])];
    if |data| >= 12 && data[..4] == PbzxMagic {
      assert ReadAt(data, 0, 4) == PbzxMagic;
      assert ReadAt(data, 4, 8) == data[4..12];
      var flags := FromBigEndian(data[4..12]);
      if HasMoreChunks(flags) {
        var p := Chunk(data, 12, part00);
        ChunkAppends(data, 12, part00);
        if p.Next? {
          assert |p.sections| == 3 || |p.sections[0].content| >= 6;
          ChunksAppend(data, p.pos, p.flags, p.sections);
          var r := FilesOf(Chunks(data, p.pos, p.flags, p.sections));
          assert |r| >= |p.sections|;
          if |p.sections| == 1 {
            assert p.sections[0].content <= r[0].content;
          }
          assert r != part00;
        }
      }
    } else {
      NotPbzxBeforeAnyOutput(data);
      if |data| >= 4 && data[..4] == PbzxMagic {
        assert ReadAt(data, 0, 4) == PbzxMagic;
        assert |ReadAt(data, 4, 8)| < 8;
      }
    }
  }

  // ----- the shape of the section list -----

  lemma ChunkKeepsAlternating(data: seq<byte>, q: nat, ss: seq<Section>)
    requires q <= |data| && Alternating(ss)
    requires Chunk(data, q, ss).Next?
    ensures Alternating(Chunk(data, q, ss).sections)
  {
    var r := Chunk(data, q, ss).sections;
    if |r| == |ss| {
      assert r[..|r| - 1] == ss[..|ss| - 1];
      forall i | 0 <= i < |r| - 1
        ensures r[i] == ss[i]
      {
        assert r[i] == r[..|r| - 1][i];
      }
    } else {
      assert r[..|ss|] == ss;
      forall i | 0 <= i < |ss|
        ensures r[i] == ss[i]
      {
        assert r[i] == r[..|ss|][i];
      }
    }
  }

  lemma {:induction false} ChunksKeepAlternating(data: seq<byte>, q: nat, flags: nat, ss: seq<Section>)
    requires q <= |data| && ss != [] && Alternating(ss)
    ensures Chunks(data, q, flags, ss).Parsed? ==> Alternating(Chunks(data, q, flags, ss).sections)
    decreases |data| - q
  {
    if HasMoreChunks(flags) {
      var p := Chunk(data, q, ss);
      if p.Next? {
        ChunkKeepsAlternating(data, q, ss);
        ChunksKeepAlternating(data, p.pos, p.flags, p.sections);
      }
    }
  }

  lemma {:induction false} AlternatingCount(ss: seq<Section>)
    requires |ss| % 2 == 1
    requires forall i :: 0 <= i < |ss| ==> (ss[i].kind == Cpio <==> i % 2 == 1)
    ensures |ss| == 1 + 2 * CountCpio(ss)
  {
    if |ss| > 1 {
      var s1 := ss[..|ss| - 1];
      var s2 := s1[..|s1| - 1];
      assert s2 == ss[..|ss| - 2];
      forall i | 0 <= i < |s2|
        ensures s2[i].kind == Cpio <==> i % 2 == 1
      {
        assert s2[i] == ss[i];
      }
      AlternatingCount(s2);
      assert s1[|s1| - 1] == ss[|ss| - 2];
    }
  }

  /** Every list parse_pbzx returns starts with `part00.cpio.xz`, alternates
      `.cpio.xz` and `.cpio` (one `.cpio` per raw chunk, each followed by a fresh
      `.cpio.xz`), so it has 1 + 2 x (raw chunks) entries; no `.cpio` is empty. */
  lemma ParsedSectionsAlternate(data: seq<byte>)
    requires Parse(data).Parsed?
    ensures Alternating(Parse(data).sections)
    ensures Parse(data).sections[0].kind == CpioXz
    ensures |Parse(data).sections| == 1 + 2 * CountCpio(Parse(data).sections)
  {
    var part00 := [Section(CpioXz, [])];
    assert Alternating(part00);
    assert ReadAt(data, 0, 4) == PbzxMagic;
    var flags := UnpackU64(ReadAt(data, 4, 8)).value;
    ChunksKeepAlternating(data, 12, flags, part00);
    AlternatingCount(Parse(data).sections);
  }

  // ----- one chunk, in terms of the input bytes -----

  /** A chunk whose lookahead is the xz Header Magic and whose length n exceeds 6
      appends the n bytes starting at the lookahead (as many as the file still
      has: a short body is accepted) to the open `.cpio.xz` section; the cursor
      ends after them, and the error for a footer other than "YZ" comes after
      that write. */
  lemma XzChunkStep(data: seq<byte>, q: nat, ss: seq<Section>)
    requires ss != [] && q + 22 <= |data|
    requires data[q + 16..q + 22] == XzHeaderMagic
    requires FromBigEndian(data[q + 8..q + 16]) > 6
    ensures var n := FromBigEndian(data[q + 8..q + 16]);
            var end := if q + 16 + n <= |data| then q + 16 + n else |data|;
            var w := AppendToOpen(ss, data[q + 16..end]);
            Chunk(data, q, ss) ==
              if data[end - 2..end] == XzFooterMagic then Next(end, FromBigEndian(data[q..q + 8]), w)
              else Stop(BadFooter, w)
  {
    assert ReadAt(data, q, 8) == data[q..q + 8];
    assert ReadAt(data, q + 8, 8) == data[q + 8..q + 16];
    assert ReadAt(data, q + 16, 6) == data[q + 16..q + 22];
    var n := FromBigEndian(data[q + 8..q + 16]);
    var end := if q + 16 + n <= |data| then q + 16 + n else |data|;
    assert data[q + 16..end] == data[q + 16..q + 22] + data[q + 22..end];
  }

  /** A chunk whose lookahead is not the xz Header Magic, with a length n > 0 and
      at least six bytes after the header, becomes a new `.cpio` section holding
      the n bytes that start at the lookahead (fewer at end-of-file), followed by
      a fresh `.cpio.xz` section; the cursor ends after them. */
  lemma RawChunkStep(data: seq<byte>, q: nat, ss: seq<Section>)
    requires ss != [] && q + 22 <= |data|
    requires data[q + 16..q + 22] != XzHeaderMagic
    requires FromBigEndian(data[q + 8..q + 16]) > 0
    ensures var n := FromBigEndian(data[q + 8..q + 16]);
            var end := if q + 16 + n <= |data| then q + 16 + n else |data|;
            Chunk(data, q, ss) ==
              Next(end, FromBigEndian(data[q..q + 8]), ss + [Section(Cpio, data[q + 16..end]), Section(CpioXz, [])])
  {
    assert ReadAt(data, q, 8) == data[q..q + 8];
    assert ReadAt(data, q + 8, 8) == data[q + 8..q + 16];
    assert ReadAt(data, q + 16, 6) == data[q + 16..q + 22];
  }

  /** When fewer than six bytes follow the header, the lookahead read comes back
      short and the six-byte back-up lands before the chunk: the `.cpio` section
      copies bytes starting six bytes before end-of-file, inside the header. */
  lemma ShortLookaheadStep(data: seq<byte>, q: nat, ss: seq<Section>)
    requires ss != [] && q + 16 <= |data| < q + 22
    requires FromBigEndian(data[q + 8..q + 16]) > 0
    ensures var n := FromBigEndian(data[q + 8..q + 16]);
            var start := |data| - 6;
            var end := if start + n <= |data| then start + n else |data|;
            start < q + 16 &&
            Chunk(data, q, ss) ==
              Next(end, FromBigEndian(data[q..q + 8]), ss + [Section(Cpio, data[start..end]), Section(CpioXz, [])])
  {
    assert ReadAt(data, q, 8) == data[q..q + 8];
    assert ReadAt(data, q + 8, 8) == data[q + 8..q + 16];
    assert |ReadAt(data, q + 16, 6)| == |data| - (q + 16);
  }

  /** The two header words are unpacked with `struct.unpack('>Q', ...)`, which
      needs all eight bytes: unlike a short body, a header cut short by
      end-of-file raises, with nothing written in that pass. */
  lemma ShortHeaderStep(data: seq<byte>, q: nat, ss: seq<Section>)
    requires q <= |data| && ss != []
    ensures Chunk(data, q, ss) == Stop(ShortField, ss) <==> q + 16 > |data|
  {
    if q + 16 <= |data| {
      assert ReadAt(data, q, 8) == data[q..q + 8];
      assert ReadAt(data, q + 8, 8) == data[q + 8..q + 16];
    } else if q + 8 <= |data| {
      assert ReadAt(data, q, 8) == data[q..q + 8];
      assert |ReadAt(data, q + 8, 8)| < 8;
    } else {
      assert |ReadAt(data, q, 8)| < 8;
    }
  }

  /** After the magic, a flags word cut short by end-of-file is the only way
      parse_pbzx raises ShortField before `part00.cpio.xz` is opened. */
  lemma ShortFlagsParse(data: seq<byte>)
    requires ReadAt(data, 0, 4) == PbzxMagic
    ensures Parse(data) == Failed(ShortField, []) <==> |data| < 12
  {
    if |data| >= 12 {
      assert ReadAt(data, 4, 8) == data[4..12];
      var flags := FromBigEndian(data[4..12]);
      ChunksAppend(data, 12, flags, [Section(CpioXz, [])]);
      assert FilesOf(Parse(data)) != [];
    } else {
      assert |ReadAt(data, 4, 8)| < 8;
    }
  }

  /** An xz chunk whose length is below 6 asks `f.read` for a negative count,
      which reads to end-of-file: the rest of the file joins the open section. */
  lemma NegativeBodyLengthStep(data: seq<byte>, q: nat, ss: seq<Section>)
    requires ss != [] && q + 22 <= |data|
    requires data[q + 16..q + 22] == XzHeaderMagic
    requires FromBigEndian(data[q + 8..q + 16]) < 6
    ensures var w := AppendToOpen(ss, data[q + 16..]);
            Chunk(data, q, ss) ==
              if data[|data| - 2..] == XzFooterMagic then Next(|data|, FromBigEndian(data[q..q + 8]), w)
              else Stop(BadFooter, w)
  {
    assert ReadAt(data, q, 8) == data[q..q + 8];
    assert ReadAt(data, q + 8, 8) == data[q + 8..q + 16];
    assert ReadAt(data, q + 16, 6) == data[q + 16..q + 22];
    var n := FromBigEndian(data[q + 8..q + 16]);
    assert ReadAt(data, q + 22, n as int - 6) == data[q + 22..];
    assert data[q + 16..] == data[q + 16..q + 22] + data[q + 22..];
    assert data[|data| - 2..|data|] == data[|data| - 2..];
  }

  /** A length that makes the body read zero bytes gets None from seekread, and
      writing None raises: for a raw chunk (length 0) after creating its empty
      `.cpio` file, for an xz chunk (length 6) after writing the magic. */
  lemma ZeroLengthBodyStep(data: seq<byte>, q: nat, ss: seq<Section>)
    requires ss != [] && q + 22 <= |data|
    requires var n := FromBigEndian(data[q + 8..q + 16]);
             if data[q + 16..q + 22] == XzHeaderMagic then n == 6 else n == 0
    ensures Chunk(data, q, ss) ==
              if data[q + 16..q + 22] == XzHeaderMagic then Stop(EmptyWrite, AppendToOpen(ss, XzHeaderMagic))
              else Stop(EmptyWrite, ss + [Section(Cpio, [])])
  {
    assert ReadAt(data, q, 8) == data[q..q + 8];
    assert ReadAt(data, q + 8, 8) == data[q + 8..q + 16];
    assert ReadAt(data, q + 16, 6) == data[q + 16..q + 22];
  }
}
