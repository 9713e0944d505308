/** `processNBI.seekread` and `processNBI.parse_pbzx` as imperative code over
    an input file object, proved to compute `PbzxSpec.Parse`. */
module PbzxParser {
  import opened Bytes
  import opened Files
  import opened PbzxSpec
  import opened PartNames

  /** What seekread hands back: the bytes read, Python's None (no read was
      asked for), or the IOError of a seek before the start of the file. */
  datatype Fetched = Got(bytes: seq<byte>) | NoneValue | SeekFailed

  /** seekread(f, offset, length, relative): seek first if an offset is given
      (`[0,1,2][relative]` picks SEEK_CUR for True, SEEK_SET for False), then
      read `length` bytes unless `length` is 0. */
  method SeekRead(f: InputFile, offset: Option<int>, length: int, relative: bool) returns (r: Fetched)
    modifies f
    ensures var target := if offset.None? then old(f.pos)
                          else SeekTarget(old(f.pos), |f.contents|, offset.value, if relative then FromCurrent else FromStart);
            if target < 0 then r == SeekFailed && f.pos == old(f.pos)
            else if length == 0 then r == NoneValue && f.pos == target
            else r == Got(ReadAt(f.contents, target, length)) && f.pos == target + |r.bytes|
    ensures offset.None? && length == 0 ==> r == NoneValue && f.pos == old(f.pos)
    ensures offset == Some(-2) && length == 2 && relative && 2 <= old(f.pos) <= |f.contents| ==>
              r == Got(f.contents[old(f.pos) - 2..old(f.pos)]) && f.pos == old(f.pos)
  {
    if offset.Some? {
      var ok := f.Seek(offset.value, if relative then FromCurrent else FromStart);
      if !ok {
        return SeekFailed;
      }
    }
    if length != 0 {
      var bytes := f.Read(length);
      return Got(bytes);
    }
    return NoneValue;
  }

  /** The raw-chunk branch of the loop body, entered with the cursor just past
      the 6-byte lookahead that did not match the xz Header Magic. */
  method CopyRawChunk(path: string, f: InputFile, flags: nat, fLength: nat, section: nat,
                      sections: seq<Section>, archiveChunks: seq<string>)
    returns (p: Progress, section': nat, archiveChunks': seq<string>)
    requires 6 <= f.pos <= |f.contents| && sections != []
    requires section == |sections| - 1 && archiveChunks == Names(path, sections)
    modifies f
    ensures p == RawChunk(f.contents, old(f.pos) - 6, flags, fLength, sections)
    ensures p.Next? ==> f.pos == p.pos && section' == |p.sections| - 1 && archiveChunks' == Names(path, p.sections)
  {
    // back up over the lookahead ...
    var backUp := SeekRead(f, Some(-6), 0, true);
    // ... and split the chunk out into a section of its own
    var content := SeekRead(f, None, fLength, true);
    section' := section + 1;
    var decompOut := PartName(path, section', Cpio);
    if content.NoneValue? {
      return Stop(EmptyWrite, sections + [Section(Cpio, [])]), section', archiveChunks;
    }
    var raw := Section(Cpio, content.bytes);
    NamesAppend(path, sections, raw);
    archiveChunks' := archiveChunks + [decompOut];
    // close xar_f; the next section is a fresh .cpio.xz
    section' := section' + 1;
    var newOut := PartName(path, section', CpioXz);
    NamesAppend(path, sections + [raw], Section(CpioXz, []));
    archiveChunks' := archiveChunks' + [newOut];
    p := Next(f.pos, flags, sections + [raw, Section(CpioXz, [])]);
  }

  /** The xz branch of the loop body, entered with the cursor just past the
      6-byte lookahead that matched the xz Header Magic. */
  method AppendXzChunk(f: InputFile, flags: nat, fLength: int, sections: seq<Section>)
    returns (p: Progress)
    requires 6 <= f.pos <= |f.contents| && sections != []
    modifies f
    ensures p == XzChunk(f.contents, old(f.pos), flags, fLength, sections)
    ensures p.Next? ==> f.pos == p.pos
  {
    var bodyLength := fLength - 6;
    var content := SeekRead(f, None, bodyLength, true);
    var tail := SeekRead(f, Some(-2), 2, true);
    var written := AppendToOpen(sections, XzHeaderMagic);
    if content.NoneValue? {
      return Stop(EmptyWrite, written);
    }
    AppendToOpenTwice(sections, XzHeaderMagic, content.bytes);
    written := AppendToOpen(written, content.bytes);
    if tail != Got(XzFooterMagic) {
      return Stop(BadFooter, written);
    }
    p := Next(f.pos, flags, written);
  }

  /** One pass through the loop body of parse_pbzx: the flags and length words,
      the six-byte lookahead, then the raw or the xz branch. */
  method ReadChunk(path: string, f: InputFile, section: nat, sections: seq<Section>, archiveChunks: seq<string>)
    returns (p: Progress, section': nat, archiveChunks': seq<string>)
    requires f.pos <= |f.contents| && sections != []
    requires section == |sections| - 1 && archiveChunks == Names(path, sections)
    modifies f
    ensures p == Chunk(f.contents, old(f.pos), sections)
    ensures p.Next? ==> f.pos == p.pos && section' == |p.sections| - 1 && archiveChunks' == Names(path, p.sections)
  {
    ghost var q := f.pos;
    var flagsField := SeekRead(f, None, 8, true);
    var flags := UnpackU64(flagsField.bytes);
    if flags.None? {
      return Stop(ShortField, sections), section, archiveChunks;
    }
    var lengthField := SeekRead(f, None, 8, true);
    var length := UnpackU64(lengthField.bytes);
    if length.None? {
      return Stop(ShortField, sections), section, archiveChunks;
    }
    assert f.pos == q + 16;
    var xzMagic := SeekRead(f, None, 6, true);
    if xzMagic.bytes != XzHeaderMagic {
      p, section', archiveChunks' := CopyRawChunk(path, f, flags.value, length.value, section, sections, archiveChunks);
    } else {
      p := AppendXzChunk(f, flags.value, length.value, sections);
      section', archiveChunks' := section, archiveChunks;
      if p.Next? {
        NamesAppendToOpen(path, sections, XzHeaderMagic + ReadAt(f.contents, q + 22, length.value as int - 6));
      }
    }
  }

  /** parse_pbzx(pbzx_path) on a file holding `data`. The output files are the
      sections of the outcome; `archiveChunks` is the list of names returned. */
  method ParsePbzx(path: string, data: seq<byte>) returns (r: Outcome, archiveChunks: seq<string>)
    ensures r == Parse(data)
    ensures r.Parsed? ==> archiveChunks == Names(path, r.sections)
  {
    archiveChunks := [];
    var section := 0;
    var xarOutPath := PartName(path, section, CpioXz);
    var f := new InputFile.Open(data);
    var magic := SeekRead(f, None, 4, true);
    if magic != Got(PbzxMagic) {
      return Failed(NotPbzx, []), archiveChunks;
    }
    var flagsField := SeekRead(f, None, 8, true);
    var initialFlags := UnpackU64(flagsField.bytes);
    if initialFlags.None? {
      return Failed(ShortField, []), archiveChunks;
    }
    var flags := initialFlags.value;
    // xar_f = open(xar_out_path, 'wb'): the open section is always the last one
    var sections := [Section(CpioXz, [])];
    archiveChunks := archiveChunks + [xarOutPath];
    while HasMoreChunks(flags)
      invariant f.contents == data && f.pos <= |data|
      invariant sections != [] && section == |sections| - 1
      invariant archiveChunks == Names(path, sections)
      invariant Chunks(data, f.pos, flags, sections) == Parse(data)
      decreases |data| - f.pos
    {
      var step;
      step, section, archiveChunks := ReadChunk(path, f, section, sections, archiveChunks);
      match step
      case Stop(e, w) =>
        return Failed(e, w), archiveChunks;
      case Next(_, nextFlags, ss) =>
        flags, sections := nextFlags, ss;
    }
    return Parsed(sections), archiveChunks;
  }
}
