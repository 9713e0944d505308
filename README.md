# pbzx unwrapping and xz reassembly in AutoNBI

AutoNBI builds NetBoot images from macOS installers. Starting with OS X 10.10,
the framework payloads it extracts come wrapped in a **pbzx** container. The
container holds:

- the ASCII magic `pbzx`;
- a big-endian 64-bit flags word;
- a run of chunks, each with its own flags word and length word.

A chunk is either a complete xz stream or a raw cpio chunk. Bit 24 of the
latest flags word says whether another chunk follows.

`processNBI.parse_pbzx` splits a container into numbered part files
`<path>.partNN.cpio.xz` and `<path>.partNN.cpio`, using the helper
`processNBI.seekread`. `decompress` drives liblzma's `lzma_code` over one
input buffer and one output buffer of `BUFSIZ` bytes each. Finally,
`processNBI.processframeworkpayload` joins the parts into one cpio archive:
it decodes the xz parts and copies the raw ones.

The model has eight modules:

- **Bytes** (`bytes.dfy`) covers bytes, big-endian words, the pbzx and xz
  magic numbers, and what Python 2's `file.read(n)` returns at a given
  position.
- **Files** (`files.dfy`) holds the file objects. An `InputFile` class has a
  cursor moved by `Read` and `Seek`. An `OutputFile` class collects what is
  written to it.
- **PbzxSpec** (`pbzx_spec.dfy`) is `parse_pbzx` as functions of the
  container's bytes. `Chunk` is one pass of the loop, `Chunks` the loop, and
  `Parse` the whole function. It also holds the lemmas about sections,
  ordering and errors.
- **PartNames** (`part_names.dfy`) holds the `'%s.part%02d.cpio[.xz]'` names
  and the `'.xz' in name` test.
- **PbzxParser** (`pbzx_parser.dfy`) has `seekread` and `parse_pbzx` as
  methods over an `InputFile`, proved to compute `Parse` and the name list.
- **LzmaLoop** (`lzma_loop.dfy`) is the `while True` loop of `decompress` as
  functions: `Refill`, `Step`, `Loop`, and the call trace `Trace`. The
  invariant and the properties of a whole run are proved about these.
  `lzma_code` is a parameter, a function value `codec`.
- **Decompressor** (`decompress.dfy`) is `decompress` itself: a method over
  two `BUFSIZ`-byte arrays, proved to compute `Loop`.
- **Reassembly** (`reassembly.dfy`) is the concatenation loop of
  `processframeworkpayload`, proved against a fold over the part list. It also
  relates the resulting archive to the sections parse_pbzx produced.

How Python 2 behaves here, and how the model treats it:

- `f.read(n)` returns fewer bytes at end-of-file, and reads to end-of-file
  when `n` is negative.
- `seekread` with `length=0` returns `None`, and `file.write(None)` raises;
  the model calls this `EmptyWrite`.
- `struct.unpack('>Q', s)` raises unless `s` has exactly 8 bytes; the model
  calls this `ShortField`.
- A seek before the start of a file raises; a seek past its end does not.
- `raise "string"` still aborts the function. The model names each such
  error: `NotPbzx` and `BadFooter`.

## Model

| member | source | states |
|---|---|---|
| Bytes.UnpackU64 | AutoNBI.py:631-633 | `struct.unpack('>Q', s)` succeeds exactly when `s` has 8 bytes, and gives a value below 2^64 |
| Bytes.ReadAt | AutoNBI.py:615-616 | `f.read(n)` at a position gives the file's bytes from there; never more than `n`; exactly `n` when the file has them; short, or for negative `n` everything, only at end-of-file |
| Bytes.FromBigEndian | AutoNBI.py:633 | the unsigned big-endian value of a byte string |
| Bytes.HasMoreChunks | AutoNBI.py:636 | `flags & (1 << 24)` is nonzero |
| Bytes.BigEndianRoundTrip | AutoNBI.py:631-633 | reading back a value written as a big-endian word of `width` bytes gives the value |
| Bytes.FromBigEndianAppend | AutoNBI.py:631-633 | splitting a big-endian byte string splits its value |
| Bytes.FlagBitIsFifthByte | AutoNBI.py:636 | `flags & (1 << 24)` of an 8-byte big-endian word is the low bit of its fifth byte |
| Files.SeekTarget | AutoNBI.py:614 | where `f.seek(offset, whence)` aims: the offset itself, the cursor plus the offset, or the size plus the offset |
| Files.InputFile.Open | AutoNBI.py:465 | `open(path, 'rb')` gives a file over the path's bytes with the cursor at 0 |
| Files.InputFile.Read | AutoNBI.py:615-616 | `f.read(n)` returns `ReadAt` of the contents at the cursor and moves the cursor past what it returned |
| Files.InputFile.Seek | AutoNBI.py:614 | `f.seek(offset, whence)` fails, leaving the cursor, exactly when the target is before the start of the file; otherwise the cursor is the target |
| Files.InputFile.Tell | AutoNBI.py:469 | `f.tell()` is the cursor |
| Files.OutputFile.Create | AutoNBI.py:473 | `open(path, 'wb')` gives an empty file, whatever the path held before |
| Files.OutputFile.Write | AutoNBI.py:509 | `f.write(b)` appends `b` to the file |
| PbzxParser.SeekRead | AutoNBI.py:611-616 | seek (relative or absolute) if an offset is given, then read `length` bytes unless `length` is 0 (`None`); `length=0` with no offset changes nothing; the `offset=-2, length=2` re-read gives the two bytes before the cursor and leaves the cursor where it was |
| PbzxParser.CopyRawChunk | AutoNBI.py:644-661 | computes `PbzxSpec.RawChunk` from six bytes before the cursor: a raw chunk backs up 6 bytes, copies `f_length` bytes into a new `.cpio` section, opens a fresh `.cpio.xz` section and appends both names; length 0 raises after creating the empty `.cpio` |
| PbzxParser.AppendXzChunk | AutoNBI.py:662-671 | computes `PbzxSpec.XzChunk` from the cursor: an xz chunk appends the magic and `f_length - 6` body bytes to the open section, then raises if the two bytes before the cursor are not "YZ"; length 6 raises after writing the magic |
| PbzxParser.ReadChunk | AutoNBI.py:637-671 | one pass of the loop body computes exactly `PbzxSpec.Chunk` and keeps the name list equal to `Names` of the sections |
| PbzxParser.ParsePbzx | AutoNBI.py:618-679 | parse_pbzx computes `PbzxSpec.Parse` of the file's bytes, and the list it returns names the sections, in order |
| PbzxSpec.Parse | AutoNBI.py:618-679 | parse_pbzx on a file: NotPbzx unless it starts with "pbzx", ShortField unless 8 flag bytes follow, then the chunk loop from offset 12 with an empty `part00.cpio.xz` open |
| PbzxSpec.Chunks | AutoNBI.py:636-671 | the loop runs one more chunk while bit 24 of the latest flags is set; a chunk that raises ends it with what was written so far |
| PbzxSpec.AppendToOpen | AutoNBI.py:667-668 | `xar_f.write(b)` appends `b` to the last section, the one open for writing, and changes nothing else |
| PbzxSpec.RawChunk | AutoNBI.py:647-661 | the raw branch moves the cursor forward from where the chunk starts and stays within the file |
| PbzxSpec.XzChunk | AutoNBI.py:662-671 | the xz branch leaves the cursor at or after the end of the magic and within the file |
| PbzxSpec.Chunk | AutoNBI.py:637-671 | every pass that continues moves the cursor forward, and stays within the file |
| PbzxSpec.AppendToOpenTwice | AutoNBI.py:667-668 | writing the magic and then the body to the open section appends both, in order |
| PbzxSpec.NotPbzxBeforeAnyOutput | AutoNBI.py:627-629 | a file whose first four bytes are not "pbzx" (a shorter file included), and only such a file, fails with NotPbzx with no section written |
| PbzxSpec.ChunksNeverNotPbzx | AutoNBI.py:636-671 | the chunk loop never reports a bad magic |
| PbzxSpec.OnlyPart00WithoutMoreBit | AutoNBI.py:631-636 | the result is exactly the single empty `part00.cpio.xz` if and only if the file is "pbzx" followed by a flags word with bit 24 clear |
| PbzxSpec.ChunkAppends | AutoNBI.py:644-671 | one pass only appends: to the open section, or new sections after it |
| PbzxSpec.ChunksAppend | AutoNBI.py:636-671 | the whole loop only appends, whether it returns or raises: no written byte is rewritten |
| PbzxSpec.ExtendsTransitive | AutoNBI.py:636-671 | appending twice is appending |
| PbzxSpec.ChunkKeepsAlternating | AutoNBI.py:644-671 | one pass keeps the `.cpio.xz` / `.cpio` alternation |
| PbzxSpec.ChunksKeepAlternating | AutoNBI.py:636-671 | the loop keeps the alternation |
| PbzxSpec.AlternatingCount | AutoNBI.py:650-661 | an alternating list has 1 + 2 x (number of `.cpio` sections) entries |
| PbzxSpec.ParsedSectionsAlternate | AutoNBI.py:621-661 | every returned list starts with a `.cpio.xz`, alternates `.cpio.xz` and non-empty `.cpio`, and has 1 + 2 x (raw chunks) entries |
| PbzxSpec.XzChunkStep | AutoNBI.py:638-671 | an xz chunk of length n > 6 appends the n bytes from the lookahead on (fewer at end-of-file) and moves the cursor 16 + n; the footer error comes after the write |
| PbzxSpec.RawChunkStep | AutoNBI.py:638-661 | a raw chunk of length n > 0 becomes a `.cpio` section of the n bytes from the lookahead on (fewer at end-of-file), then a fresh `.cpio.xz`; the cursor moves 16 + n |
| PbzxSpec.ShortHeaderStep | AutoNBI.py:637-642 | a loop pass raises ShortField with nothing new written exactly when fewer than 16 bytes are left for the flags and length words |
| PbzxSpec.ShortFlagsParse | AutoNBI.py:630-634 | after the magic, parse_pbzx raises ShortField before opening any file exactly when the file is shorter than 12 bytes |
| PbzxSpec.ShortLookaheadStep | AutoNBI.py:643-649 | with fewer than six bytes after the header, the back-up lands inside the header: the `.cpio` section starts six bytes before end-of-file |
| PbzxSpec.NegativeBodyLengthStep | AutoNBI.py:663-665 | an xz chunk with length below 6 reads a negative count, which takes the rest of the file into the open section |
| PbzxSpec.ZeroLengthBodyStep | AutoNBI.py:647-653 | a raw length of 0, or an xz length of 6, reads `None`, and writing it raises: after creating the empty `.cpio`, or after writing the magic |
| PartNames.PartName | AutoNBI.py:621-659 | `'%s.part%02d.cpio.xz'` or `'%s.part%02d.cpio'` of the path and the section number |
| PartNames.Names | AutoNBI.py:621-661 | `archivechunks`: entry i is the name of section i, with its kind |
| PartNames.ContainsXz | AutoNBI.py:691 | `'.xz' in name`: ".xz" occurs somewhere in the name |
| PartNames.Decimal | AutoNBI.py:623 | `'%d'` gives at least one digit, and a single digit exactly below 10 |
| PartNames.TwoDigits | AutoNBI.py:623 | `'%02d'` gives at least two digits |
| PartNames.NamesAppend | AutoNBI.py:655-661 | appending a section appends its name, numbered by its position |
| PartNames.NamesAppendToOpen | AutoNBI.py:667-668 | writing to the open section changes no name |
| PartNames.DecimalInjective | AutoNBI.py:623 | distinct numbers print differently |
| PartNames.TwoDigitsInjective | AutoNBI.py:623 | distinct section numbers give distinct `%02d` strings |
| PartNames.SuffixInjective | AutoNBI.py:623-659 | the `%02d` number and the extension after the path determine the section number and the kind |
| PartNames.PartNameInjective | AutoNBI.py:623-659 | two part names agree only if their section numbers and kinds agree |
| PartNames.NamesDistinct | AutoNBI.py:621-661 | the list parse_pbzx returns has no repeated name, so no part file overwrites another |
| PartNames.XzTestFollowsKind | AutoNBI.py:691 | with no ".xz" in the payload's path, `'.xz' in name` holds exactly for the `.cpio.xz` parts |
| PartNames.XzStaysInPath | AutoNBI.py:691 | an ".xz" in path + rest lies in path when rest has no 'z' |
| PartNames.XzInPathMisclassifiesCpio | AutoNBI.py:691 | for every path with ".xz" in it, every part name passes the `'.xz' in name` test, whatever its section number and kind |
| PartNames.StripEnd | AutoNBI.py:701 | `rstrip('.xz')` gives a prefix of the name that is empty or does not end in '.', 'x' or 'z', and everything it drops is one of those |
| PartNames.StripStart | AutoNBI.py:701 | `lstrip('.xz')` gives a suffix of the name that is empty or does not start with '.', 'x' or 'z', and everything it drops is one of those |
| PartNames.Strip | AutoNBI.py:701 | `name.strip('.xz')` is no longer than the name, and equals it exactly when the name is empty or neither starts nor ends with '.', 'x' or 'z' |
| PartNames.StripXzPart | AutoNBI.py:701 | for a path not starting with '.', 'x' or 'z', decompress writes part NN's decoding to `<path>.partNN.cpio` |
| PartNames.StripCpioPart | AutoNBI.py:701 | for a path not starting with '.', 'x' or 'z', strip leaves a `.cpio` part's name as it is |
| PartNames.StripMovesXzPart | AutoNBI.py:701 | strip always changes a `.cpio.xz` part's name |
| PartNames.XzTargetIsNoPart | AutoNBI.py:701 | for a path not starting with '.', 'x' or 'z', the file a `.cpio.xz` part is decoded into is not in the list parse_pbzx returns |
| LzmaLoop.Refill | AutoNBI.py:480-498 | the refill block: only when the window is empty and the cursor is before EOF, read up to BUFSIZ bytes, advance the cursor, and switch to FINISH at EOF |
| LzmaLoop.Loop | AutoNBI.py:478-522 | `while True` for at most `fuel` passes: True on LZMA_STREAM_END, the exception for any other non-OK code, each with what the output file holds |
| LzmaLoop.Step | AutoNBI.py:478-522 | a pass that continues leaves room in the output buffer |
| LzmaLoop.Start | AutoNBI.py:449-476 | before the loop nothing has been read, both buffers are empty, the action is RUN and the output file is empty |
| LzmaLoop.StartInv | AutoNBI.py:449-476 | the state set up before the loop satisfies the loop invariant |
| LzmaLoop.RefillKeepsInv | AutoNBI.py:480-498 | input is read only into a drained buffer and only before end-of-file, then exactly min(BUFSIZ, bytes left); the cursor stays within end-of-file; the action switches to FINISH when the cursor reaches end-of-file and never back |
| LzmaLoop.NextCallOk | AutoNBI.py:480-500 | every call to `lzma_code` satisfies `CallOk` |
| LzmaLoop.StepKeepsInv | AutoNBI.py:478-522 | a pass that continues keeps the loop invariant, including "only whole buffers have been written" |
| LzmaLoop.StepContinues | AutoNBI.py:500-513 | a pass that continues delivers exactly what the codec produced, to the file or the buffer, and advances the input by exactly what it consumed |
| LzmaLoop.StepEnds | AutoNBI.py:502-518 | on LZMA_STREAM_END the buffer and the last output are written out and decompress returns True |
| LzmaLoop.StepRaises | AutoNBI.py:502-522 | any other non-OK code raises, and the file then holds whole buffers only |
| LzmaLoop.TraceCallsOk | AutoNBI.py:478-500 | along the whole run, every call satisfies `CallOk`; the cursor never moves back; the action never switches from FINISH back to RUN |
| LzmaLoop.EmptyInputStaysRun | AutoNBI.py:480-498 | an empty input file is never read: every call gets an empty window and the action RUN |
| LzmaLoop.RunOutput | AutoNBI.py:502-518 | the output file is always a prefix of everything the codec produced, in order, and all of it on LZMA_STREAM_END |
| LzmaLoop.RunWholeBuffers | AutoNBI.py:502-522 | when the run ends in an error or is cut off, the output file's length is a multiple of BUFSIZ, and an error code is neither LZMA_OK nor LZMA_STREAM_END |
| LzmaLoop.FedInOrder | AutoNBI.py:480-500 | the codec is fed the input's bytes in order, with nothing skipped or fed twice |
| LzmaLoop.DecompressRun | AutoNBI.py:442-522 | from the start of decompress: all calls are well formed and move forward; the output is the in-order concatenation of what the codec produced; the codec was fed a prefix of the input |
| Decompressor.CopyInto | AutoNBI.py:490 | `buf[at:at+n] = bytes` puts the bytes at `at` and leaves what is before and after them |
| Decompressor.LoadInput | AutoNBI.py:480-498 | the refill block computes exactly `LzmaLoop.Refill` |
| Decompressor.Deliver | AutoNBI.py:502-513 | when the buffer is full or the stream has ended, the `BUFSIZ - avail_out` buffered bytes are written and `avail_out` is reset to BUFSIZ; otherwise nothing is written |
| Decompressor.Pass | AutoNBI.py:478-522 | one pass of the loop body (refill, `lzma_code`, delivery) computes `LzmaLoop.Step` of the session the loop's variables stand for, and the code it returns says whether the loop goes on, returns True, or raises |
| Decompressor.Decompress | AutoNBI.py:442-522 | decompress computes `LzmaLoop.Loop` from the initial state |
| Reassembly.AssembleUpTo | AutoNBI.py:690-716 | the first n passes of the loop: the parts' bytes appended in order, up to the first part that fails, which stops the loop |
| Reassembly.Assemble | AutoNBI.py:690-716 | the whole loop over the part list |
| Reassembly.Unwrap | AutoNBI.py:683-716 | the pbzx branch: a parse_pbzx error, or the part names and the concatenation over the files parse_pbzx wrote |
| Reassembly.PartFiles | AutoNBI.py:652-668 | after parse_pbzx each part's file, under its name, holds that section's bytes |
| Reassembly.PartBytes | AutoNBI.py:691-716 | what one pass of the loop adds to the archive: a part is only ever read from a file that exists |
| Reassembly.ReadPart | AutoNBI.py:691-716 | the pass up to the copy into `fout` computes `PartBytes`: decompress for a name containing ".xz" (nothing when strip leaves the name as it is), the file's bytes otherwise |
| Reassembly.Reassemble | AutoNBI.py:690-716 | the concatenation loop computes `Assemble`, the fold over the part list |
| Reassembly.ProcessFrameworkPayload | AutoNBI.py:683-716 | the pbzx branch computes `Unwrap`: a parse error, or the part names and the assembled archive |
| Reassembly.AbortedStays | AutoNBI.py:690-716 | once a part fails, the loop's outcome is fixed |
| Reassembly.AssembleInOrder | AutoNBI.py:690-716 | the archive is the parts, one after the other in list order; the first part that cannot be read or decoded stops it, with exactly the parts before it written |
| Reassembly.AssembleAll | AutoNBI.py:690-716 | when every part reads and decodes, the archive is all of them, in order |
| Reassembly.AssembleStopsAtFailure | AutoNBI.py:690-716 | a failing part aborts with exactly the earlier parts in the archive |
| Reassembly.SectionPart | AutoNBI.py:690-716 | with no ".xz" in the path, a `.cpio` section goes in as it is and a `.cpio.xz` section goes in decoded |
| Reassembly.PayloadArchive | AutoNBI.py:683-716 | for a pbzx payload whose path has no ".xz" in it, the archive is the sections in parse_pbzx's order, `.cpio` verbatim and `.cpio.xz` decoded |
| Reassembly.XzInPathDropsCpioPart | AutoNBI.py:691-716 | with ".xz" in a path that does not start with '.', 'x' or 'z', every `.cpio` part contributes nothing: it is handed to decompress as its own output file |
| Reassembly.XzInPathAborts | AutoNBI.py:683-716 | a pbzx payload with ".xz" in such a path and at least one raw chunk always aborts, at part 0 or part 1 |

## Left out

- liblzma is not modelled. `lzma_stream_decoder`, `lzma_code` and `lzma_end` are foreign calls. The codec is a function-value parameter, and the loop relies only on its contract: it takes at most `avail_in` bytes and writes at most `avail_out`. The return code of `lzma_stream_decoder` is ignored, as in the source.
- The ctypes `lzma_stream` layout is not modelled. Its `next_in`, `avail_in` and `avail_out` fields are variables of `Decompress`, and `next_out` is always `BUFSIZ - avail_out`.
- Decompressor.Decompress: `while True` runs at most `fuel` times. A run that neither ends nor fails within that bound is reported as `Unfinished`. Termination of the loop depends on liblzma and is not claimed.
- The external `xz` executable branch (AutoNBI.py:694-698) is not modelled; only the `decompress` branch is. The decoded bytes are taken as read back from `xzfile.strip('.xz')`; the model keeps no file under that name.
- The `payloadtype.startswith('data')` test and the `os.rename` branch for an unwrapped payload are not modelled. Neither are `os.remove`, `shutil.copyfileobj` buffering, and the `TMPDIR` join, which are file-system plumbing.
- Files are byte sequences held in memory. Each part file is a `Section` value, and the directory of parts is a `map` from names to bytes. Closing files is not modelled.
- Reassembly.PartBytes: when strip leaves a part's name as it is, decompress is not run on the emptied file. Whatever it then does, `os.remove(xzfile)` deletes its only output before `file(...)` opens it, so the part never reaches the archive.
- Reassembly.Assembly: any error inside the loop stops it with the archive as written so far. The error can be a missing file, an error code, or a run cut off by the fuel bound. The kind of exception is not kept.
- PbzxSpec.Parse: `struct.unpack` always succeeds on 8 bytes. The `OverflowError` that CPython raises for a length of 2^63 or more passed to `f.read` is not modelled; such a length reads to end-of-file as any large count does.
- `print` output and error messages are not modelled.
- On a bad footer or an empty write, `parse_pbzx` raises after the part files are written (AutoNBI.py:652-653, 667-671), and nothing removes them. `Failed` records what was written.
