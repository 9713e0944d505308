/** The pbzx branch of `processNBI.processframeworkpayload`: unwrap the
    container with parse_pbzx, then concatenate its parts, in the order
    parse_pbzx listed them, into one cpio archive, decoding every part whose
    name contains ".xz" with `decompress` and copying every other part as it is. */
module Reassembly {
  import opened Bytes
  import opened Files
  import opened PbzxSpec
  import opened PartNames
  import opened PbzxParser
  import opened LzmaLoop
  import opened Decompressor

  /** `Assembled(archive)`: every part was concatenated. `Aborted(part,
      archive)`: part number `part` could not be read or decoded, and the
      archive holds the parts before it. */
  datatype Assembly =
    | Assembled(archive: seq<byte>)
    | Aborted(part: nat, archive: seq<byte>)

  /** The whole branch: parse_pbzx raising before any part is read, or the
      result of the concatenation. */
  datatype Unwrapped =
    | NotUnwrapped(error: Failure)
    | Unwrapped(parts: seq<string>, assembly: Assembly)

  /** The files on disk after parse_pbzx: each part's name holds its bytes. */
  function PartFiles(path: string, sections: seq<Section>): (files: map<string, seq<byte>>)
    ensures forall i :: 0 <= i < |sections| ==>
              PartName(path, i, sections[i].kind) in files && files[PartName(path, i, sections[i].kind)] == sections[i].content
  {
    if sections == [] then map[]
    else
      var n := |sections| - 1;
      var last := PartName(path, n, sections[n].kind);
      OthersNamedApart(path, sections);
      PartFiles(path, sections[..n])[last := sections[n].content]
  }

  lemma OthersNamedApart(path: string, sections: seq<Section>)
    requires sections != []
    ensures var n := |sections| - 1;
            forall i :: 0 <= i < n ==>
              sections[..n][i] == sections[i] && PartName(path, i, sections[i].kind) != PartName(path, n, sections[n].kind)
  {
    var n := |sections| - 1;
    forall i | 0 <= i < n
      ensures PartName(path, i, sections[i].kind) != PartName(path, n, sections[n].kind)
    {
      if PartName(path, i, sections[i].kind) == PartName(path, n, sections[n].kind) {
        PartNameInjective(path, i, sections[i].kind, n, sections[n].kind);
      }
    }
  }

  /** What one part contributes to the archive: for a name containing ".xz",
      the output of decompress, written to `name.strip('.xz')` and read back
      from there, when it ends on LZMA_STREAM_END; for any other name, the
      file's own bytes. None when the file is missing, when decompress does not
      return True, or when strip leaves the name as it is: decompress then
      opens the part it is reading for writing, which empties it, and
      `os.remove(xzfile)` deletes the result before it is read back. */
  function PartBytes<S(!new)>(codec: Codec<S>, decoder: S, fuel: nat, files: map<string, seq<byte>>, name: string): (r: Option<seq<byte>>)
    requires Honest(codec)
    ensures r.Some? ==> name in files
  {
    if name !in files then None
    else if ContainsXz(name) then
      if Strip(name) == name then None
      else
        match Loop(codec, files[name], Start(decoder), fuel)
        case StreamEnd(out) => Some(out)
        case _ => None
    else Some(files[name])
  }

  /** The first `n` passes of `for xzfile in chunks`. */
  function AssembleUpTo<S(!new)>(codec: Codec<S>, decoder: S, fuel: nat, files: map<string, seq<byte>>,
                                 chunks: seq<string>, n: nat): Assembly
    requires Honest(codec) && n <= |chunks|
  {
    if n == 0 then Assembled([])
    else
      match AssembleUpTo(codec, decoder, fuel, files, chunks, n - 1)
      case Aborted(k, a) => Aborted(k, a)
      case Assembled(a) =>
        match PartBytes(codec, decoder, fuel, files, chunks[n - 1])
        case None => Aborted(n - 1, a)
        case Some(b) => Assembled(a + b)
  }

  function Assemble<S(!new)>(codec: Codec<S>, decoder: S, fuel: nat, files: map<string, seq<byte>>,
                             chunks: seq<string>): Assembly
    requires Honest(codec)
  {
    AssembleUpTo(codec, decoder, fuel, files, chunks, |chunks|)
  }

  /** The pbzx branch on a payload file `path` holding `data`. */
  function Unwrap<S(!new)>(codec: Codec<S>, decoder: S, fuel: nat, path: string, data: seq<byte>): Unwrapped
    requires Honest(codec)
  {
    match Parse(data)
    case Failed(e, _) => NotUnwrapped(e)
    case Parsed(ss) => Unwrapped(Names(path, ss), Assemble(codec, decoder, fuel, PartFiles(path, ss), Names(path, ss)))
  }

  /** The bytes of `parts`, one after the other. */
  function Joined(parts: seq<seq<byte>>): seq<byte>
  {
    if parts == [] then [] else parts[0] + Joined(parts[1..])
  }

  // ----- the loop -----

  /** The body of `for xzfile in chunks` up to the copy into `fout`: decode
      the part if its name contains ".xz", otherwise take it as it is. None
      stands for the exception that ends the loop. */
  method ReadPart<S(!new)>(codec: Codec<S>, decoder: S, fuel: nat, files: map<string, seq<byte>>, xzfile: string)
    returns (part: Option<seq<byte>>)
    requires Honest(codec)
    ensures part == PartBytes(codec, decoder, fuel, files, xzfile)
  {
    if xzfile !in files {
      return None;
    }
    if ContainsXz(xzfile) {
      if Strip(xzfile) == xzfile {
        // decompress(xzfile, xzfile) empties its own input, and the file it
        // wrote is removed before `file(xzfile.strip('.xz'))` opens it
        return None;
      }
      var result := Decompress(codec, decoder, files[xzfile], fuel);
      if !result.StreamEnd? {
        return None;
      }
      return Some(result.output);
    }
    return Some(files[xzfile]);
  }

  /** The concatenation loop: `fout` receives each part in turn. */
  method Reassemble<S(!new)>(codec: Codec<S>, decoder: S, fuel: nat, files: map<string, seq<byte>>, chunks: seq<string>)
    returns (r: Assembly)
    requires Honest(codec)
    ensures r == Assemble(codec, decoder, fuel, files, chunks)
  {
    var fout := new OutputFile.Create();
    for i := 0 to |chunks|
      invariant AssembleUpTo(codec, decoder, fuel, files, chunks, i) == Assembled(fout.data)
    {
      var part := ReadPart(codec, decoder, fuel, files, chunks[i]);
      if part.None? {
        AbortedStays(codec, decoder, fuel, files, chunks, i, |chunks|);
        return Aborted(i, fout.data);
      }
      fout.Write(part.value);
    }
    return Assembled(fout.data);
  }

  /** processframeworkpayload for a pbzx-wrapped payload `path` holding `data`. */
  method ProcessFrameworkPayload<S(!new)>(codec: Codec<S>, decoder: S, fuel: nat, path: string, data: seq<byte>)
    returns (r: Unwrapped)
    requires Honest(codec)
    ensures r == Unwrap(codec, decoder, fuel, path, data)
  {
    var parsed, chunks := ParsePbzx(path, data);
    if parsed.Failed? {
      return NotUnwrapped(parsed.error);
    }
    var files := PartFiles(path, parsed.sections);
    var assembly := Reassemble(codec, decoder, fuel, files, chunks);
    return Unwrapped(chunks, assembly);
  }

  // ----- properties -----

  /** Once a part has stopped the loop, nothing after it changes the outcome. */
  lemma {:induction false} AbortedStays<S(!new)>(codec: Codec<S>, decoder: S, fuel: nat, files: map<string, seq<byte>>,
                                                 chunks: seq<string>, k: nat, n: nat)
    requires Honest(codec) && k < n <= |chunks|
    requires AssembleUpTo(codec, decoder, fuel, files, chunks, k).Assembled?
    requires PartBytes(codec, decoder, fuel, files, chunks[k]).None?
    ensures AssembleUpTo(codec, decoder, fuel, files, chunks, n) ==
              Aborted(k, AssembleUpTo(codec, decoder, fuel, files, chunks, k).archive)
  {
    if n > k + 1 {
      AbortedStays(codec, decoder, fuel, files, chunks, k, n - 1);
    }
  }

  lemma JoinedSnoc(parts: seq<seq<byte>>, b: seq<byte>)
    ensures Joined(parts + [b]) == Joined(parts) + b
  {
    if parts != [] {
      assert (parts + [b])[1..] == parts[1..] + [b];
      JoinedSnoc(parts[1..], b);
    } else {
      assert [b][1..] == [];
    }
  }

  /** The archive is the parts' bytes one after the other, in the order of
      `chunks`, when every part reads and decodes; otherwise the first part
      that does not stops the loop, and the archive holds exactly the parts
      before it. */
  lemma {:induction false} AssembleInOrder<S(!new)>(codec: Codec<S>, decoder: S, fuel: nat, files: map<string, seq<byte>>,
                                                    chunks: seq<string>, parts: seq<seq<byte>>, n: nat)
    requires Honest(codec) && n <= |chunks|
    requires |parts| <= |chunks|
    requires forall i :: 0 <= i < |parts| ==> PartBytes(codec, decoder, fuel, files, chunks[i]) == Some(parts[i])
    ensures n <= |parts| ==> AssembleUpTo(codec, decoder, fuel, files, chunks, n) == Assembled(Joined(parts[..n]))
    ensures n > |parts| && PartBytes(codec, decoder, fuel, files, chunks[|parts|]).None? ==>
              AssembleUpTo(codec, decoder, fuel, files, chunks, n) == Aborted(|parts|, Joined(parts))
  {
    if n > 0 {
      AssembleInOrder(codec, decoder, fuel, files, chunks, parts, n - 1);
      if n <= |parts| {
        assert parts[..n] == parts[..n - 1] + [parts[n - 1]];
        JoinedSnoc(parts[..n - 1], parts[n - 1]);
      } else if n - 1 == |parts| {
        assert parts[..n - 1] == parts;
      }
    }
  }

  /** Every part reads and decodes exactly when the loop gets through all of
      them: the archive is then all the parts, in order. */
  lemma AssembleAll<S(!new)>(codec: Codec<S>, decoder: S, fuel: nat, files: map<string, seq<byte>>,
                             chunks: seq<string>, parts: seq<seq<byte>>)
    requires Honest(codec) && |parts| == |chunks|
    requires forall i :: 0 <= i < |parts| ==> PartBytes(codec, decoder, fuel, files, chunks[i]) == Some(parts[i])
    ensures Assemble(codec, decoder, fuel, files, chunks) == Assembled(Joined(parts))
  {
    AssembleInOrder(codec, decoder, fuel, files, chunks, parts, |chunks|);
    assert parts[..|chunks|] == parts;
  }

  /** A part that does not read or decode aborts the loop there, with the
      parts before it, and only those, in the archive. */
  lemma AssembleStopsAtFailure<S(!new)>(codec: Codec<S>, decoder: S, fuel: nat, files: map<string, seq<byte>>,
                                        chunks: seq<string>, parts: seq<seq<byte>>)
    requires Honest(codec) && |parts| < |chunks|
    requires forall i :: 0 <= i < |parts| ==> PartBytes(codec, decoder, fuel, files, chunks[i]) == Some(parts[i])
    requires PartBytes(codec, decoder, fuel, files, chunks[|parts|]).None?
    ensures Assemble(codec, decoder, fuel, files, chunks) == Aborted(|parts|, Joined(parts))
  {
    AssembleInOrder(codec, decoder, fuel, files, chunks, parts, |chunks|);
  }

  /** With no ".xz" in the payload's path, the part parse_pbzx wrote for a
      section is decoded exactly when the section is a `.cpio.xz`: a `.cpio`
      section goes into the archive as it is. */
  lemma SectionPart<S(!new)>(codec: Codec<S>, decoder: S, fuel: nat, path: string, ss: seq<Section>, i: nat)
    requires Honest(codec) && !ContainsXz(path) && i < |ss|
    ensures PartBytes(codec, decoder, fuel, PartFiles(path, ss), Names(path, ss)[i]) ==
              if ss[i].kind == Cpio then Some(ss[i].content)
              else match Loop(codec, ss[i].content, Start(decoder), fuel)
                   case StreamEnd(out) => Some(out)
                   case _ => None
  {
    XzTestFollowsKind(path, i, ss[i].kind);
    if ss[i].kind == CpioXz {
      StripMovesXzPart(path, i);
    }
  }

  /** The archive built from a pbzx payload whose path has no ".xz" in it:
      when every `.cpio.xz` part decodes to the corresponding entry of
      `decoded`, the archive is the sections in parse_pbzx's order, each
      `.cpio` copied as it is and each `.cpio.xz` replaced by its decoding. */
  lemma PayloadArchive<S(!new)>(codec: Codec<S>, decoder: S, fuel: nat, path: string, data: seq<byte>,
                                decoded: seq<seq<byte>>)
    requires Honest(codec) && !ContainsXz(path)
    requires Parse(data).Parsed? && |decoded| == |Parse(data).sections|
    requires forall i :: 0 <= i < |decoded| && Parse(data).sections[i].kind == CpioXz ==>
               Loop(codec, Parse(data).sections[i].content, Start(decoder), fuel) == StreamEnd(decoded[i])
    ensures var ss := Parse(data).sections;
            Unwrap(codec, decoder, fuel, path, data) ==
              Unwrapped(Names(path, ss), Assembled(Joined(seq(|ss|, i requires 0 <= i < |ss| =>
                                                                 if ss[i].kind == Cpio then ss[i].content else decoded[i]))))
  {
    var ss := Parse(data).sections;
    var parts := seq(|ss|, i requires 0 <= i < |ss| => if ss[i].kind == Cpio then ss[i].content else decoded[i]);
    var files, chunks := PartFiles(path, ss), Names(path, ss);
    forall i | 0 <= i < |parts|
      ensures PartBytes(codec, decoder, fuel, files, chunks[i]) == Some(parts[i])
    {
      SectionPart(codec, decoder, fuel, path, ss, i);
    }
    AssembleAll(codec, decoder, fuel, files, chunks, parts);
  }

  /** A ".xz" anywhere in the payload's path sends the raw `.cpio` parts to
      decompress as well. For a path that does not start with '.', 'x' or 'z'
      the part is its own decompress target, so it never reaches the archive. */
  lemma XzInPathDropsCpioPart<S(!new)>(codec: Codec<S>, decoder: S, fuel: nat, path: string, ss: seq<Section>, i: nat)
    requires Honest(codec) && ContainsXz(path) && path != [] && !Strippable(path[0])
    requires i < |ss| && ss[i].kind == Cpio
    ensures PartBytes(codec, decoder, fuel, PartFiles(path, ss), Names(path, ss)[i]).None?
  {
    XzInPathMisclassifiesCpio(path, i, Cpio);
    StripCpioPart(path, i);
  }

  /** So a pbzx payload with ".xz" in its path (not starting with '.', 'x' or
      'z') and at least one raw chunk is never fully unwrapped: the loop aborts
      at part 0 or at part 1, the first `.cpio`. */
  lemma XzInPathAborts<S(!new)>(codec: Codec<S>, decoder: S, fuel: nat, path: string, data: seq<byte>)
    requires Honest(codec) && ContainsXz(path) && path != [] && !Strippable(path[0])
    requires Parse(data).Parsed? && |Parse(data).sections| >= 2
    ensures Unwrap(codec, decoder, fuel, path, data).assembly.Aborted?
    ensures Unwrap(codec, decoder, fuel, path, data).assembly.part <= 1
  {
    var ss := Parse(data).sections;
    ParsedSectionsAlternate(data);
    assert ss[1].kind == Cpio;
    var files, chunks := PartFiles(path, ss), Names(path, ss);
    XzInPathDropsCpioPart(codec, decoder, fuel, path, ss, 1);
    match PartBytes(codec, decoder, fuel, files, chunks[0])
    case None =>
      AssembleStopsAtFailure(codec, decoder, fuel, files, chunks, []);
    case Some(b) =>
      AssembleStopsAtFailure(codec, decoder, fuel, files, chunks, [b]);
  }
}
