/** `decompress(infile, outfile)`: the buffer-driving loop around liblzma, over
    an input buffer and an output buffer of BUFSIZ bytes each, proved to do
    what `LzmaLoop.Loop` says. */
module Decompressor {
  import opened Bytes
  import opened Files
  import opened LzmaLoop

  /** `buf[at:at+len(bytes)] = bytes`: the bytes land at `at`, and what lies
      before and after them is left alone. */
  method CopyInto(buf: array<byte>, at: nat, bytes: seq<byte>)
    requires at + |bytes| <= buf.Length
    modifies buf
    ensures buf[..at] == old(buf[..at])
    ensures buf[at..at + |bytes|] == bytes
    ensures buf[at + |bytes|..] == old(buf[at + |bytes|..])
  {
    forall i | 0 <= i < |bytes| {
      buf[at + i] := bytes[i];
    }
  }

  /** The top of the loop body: once the decoder has drained the input buffer
      and the file has bytes left, read up to BUFSIZ more into the buffer, and
      switch to FINISH when the cursor reaches end-of-file. */
  method LoadInput<S(!new)>(xzFile: InputFile, inbuf: array<byte>, eof: nat, ghost s: Session<S>,
                      nextIn: nat, availIn: nat, cursor: nat, action: Action)
    returns (nextIn': nat, availIn': nat, cursor': nat, action': Action)
    requires inbuf.Length == BUFSIZ && nextIn + availIn <= BUFSIZ
    requires eof == |xzFile.contents| && xzFile.pos == cursor
    requires s.cursor == cursor && s.window == inbuf[nextIn..nextIn + availIn] && s.action == action
    modifies xzFile, inbuf
    ensures nextIn' + availIn' <= BUFSIZ && xzFile.pos == cursor'
    ensures Refill(xzFile.contents, s) == s.(cursor := cursor', window := inbuf[nextIn'..nextIn' + availIn'], action := action')
  {
    nextIn', availIn', cursor', action' := nextIn, availIn, cursor, action;
    if availIn == 0 && cursor < eof {
      var chunk := xzFile.Read(BUFSIZ);
      CopyInto(inbuf, 0, chunk);
      nextIn', availIn' := 0, |chunk|;
      cursor' := cursor + |chunk|;
      if cursor' >= eof {
        action' := Finish;
      }
    }
  }

  /** After `lzma_code` has written `produced` at next_out = `at`: when the
      output buffer is full or the stream has ended, write the buffer out and
      make all of it available again. Returns the new `avail_out`. */
  method Deliver(outbuf: array<byte>, fOut: OutputFile, at: nat, produced: seq<byte>, ended: bool)
    returns (availOut: nat)
    requires outbuf.Length == BUFSIZ && at + |produced| <= BUFSIZ
    modifies outbuf, fOut
    ensures var full := old(outbuf[..at]) + produced;
            if |full| == BUFSIZ || ended then fOut.data == old(fOut.data) + full && availOut == BUFSIZ
            else fOut.data == old(fOut.data) && availOut == BUFSIZ - |full| && outbuf[..at + |produced|] == full
  {
    CopyInto(outbuf, at, produced);
    assert outbuf[..at + |produced|] == outbuf[..at] + outbuf[at..at + |produced|];
    availOut := BUFSIZ - (at + |produced|);
    if availOut == 0 || ended {
      var outputLen := BUFSIZ - availOut;
      fOut.Write(outbuf[..outputLen]);
      availOut := BUFSIZ;
    }
  }

  /** One pass through the body of `while True`: refill, one call to
      `lzma_code`, then deliver its output. Returns the code `lzma_code`
      answered and the new values of the loop's variables; the pass computes
      `LzmaLoop.Step` of the session they stood for. */
  method Pass<S(!new)>(codec: Codec<S>, xzFile: InputFile, inbuf: array<byte>, outbuf: array<byte>,
                       fOut: OutputFile, eof: nat, ghost s: Session<S>, state: S,
                       nextIn: nat, availIn: nat, availOut: nat, cursor: nat, action: Action)
    returns (ret: int, state': S, nextIn': nat, availIn': nat, availOut': nat, cursor': nat, action': Action)
    requires Honest(codec) && Inv(xzFile.contents, s)
    requires inbuf.Length == BUFSIZ && outbuf.Length == BUFSIZ && inbuf != outbuf
    requires nextIn + availIn <= BUFSIZ && 1 <= availOut <= BUFSIZ
    requires eof == |xzFile.contents| && xzFile.pos == cursor
    requires s == Session(cursor, inbuf[nextIn..nextIn + availIn], outbuf[..BUFSIZ - availOut], action, state, fOut.data)
    modifies xzFile, inbuf, outbuf, fOut
    ensures xzFile.pos == cursor' && nextIn' + availIn' <= BUFSIZ && 1 <= availOut' <= BUFSIZ
    ensures var st := Step(codec, xzFile.contents, s);
            if ret == LzmaOk then
              st == Continue(Session(cursor', inbuf[nextIn'..nextIn' + availIn'], outbuf[..BUFSIZ - availOut'],
                                     action', state', fOut.data))
            else if ret == LzmaStreamEnd then st == Ended(fOut.data)
            else st == Raised(ret, fOut.data)
  {
    ghost var buffered := outbuf[..BUFSIZ - availOut];
    nextIn', availIn', cursor', action' := LoadInput(xzFile, inbuf, eof, s, nextIn, availIn, cursor, action);
    ghost var r := Refill(xzFile.contents, s);
    assert outbuf[..BUFSIZ - availOut] == buffered;
    var result := codec(state, inbuf[nextIn'..nextIn' + availIn'], availOut, action');
    StepFromCall(codec, xzFile.contents, s, r, result);
    // the codec takes from the front of the window and writes at next_out
    assert inbuf[nextIn' + result.consumed..nextIn' + availIn'] == r.window[result.consumed..];
    nextIn', availIn' := nextIn' + result.consumed, availIn' - result.consumed;
    state' := result.next;
    ret := result.ret;
    ghost var window := inbuf[nextIn'..nextIn' + availIn'];
    ghost var full := buffered + result.produced;
    ghost var flush := |full| == BUFSIZ || ret == LzmaStreamEnd;
    ghost var written := if flush then fOut.data + full else fOut.data;
    availOut' := Deliver(outbuf, fOut, BUFSIZ - availOut, result.produced, result.ret == LzmaStreamEnd);
    assert inbuf[nextIn'..nextIn' + availIn'] == window;
    assert outbuf[..BUFSIZ - availOut'] == (if flush then [] else full);
    assert fOut.data == written;
  }

  /** decompress on an input file holding `input`, with `codec` standing for
      `lzma_code` and `decoder` for the state `lzma_stream_decoder` set up. The
      `while True` loop runs at most `fuel` times. */
  method Decompress<S(!new)>(codec: Codec<S>, decoder: S, input: seq<byte>, fuel: nat) returns (r: Decoded)
    requires Honest(codec)
    ensures r == Loop(codec, input, Start(decoder), fuel)
  {
    var state := decoder;
    // the output buffer: next_out is always BUFSIZ - avail_out
    var outbuf := new byte[BUFSIZ];
    var availOut: nat := BUFSIZ;
    // the (blank) input buffer
    var inbuf := new byte[BUFSIZ];
    var nextIn: nat, availIn: nat := 0, 0;
    var xzFile := new InputFile.Open(input);
    var cursor: nat := 0;
    var atEnd := xzFile.Seek(0, FromEnd);
    var eof := xzFile.Tell();
    var rewound := xzFile.Seek(0, FromStart);
    var fOut := new OutputFile.Create();
    var action := Run;
    ghost var s := Start(decoder);
    var passes := 0;
    while passes < fuel
      invariant xzFile.contents == input && xzFile.pos == cursor && eof == |input|
      invariant inbuf.Length == BUFSIZ && outbuf.Length == BUFSIZ
      invariant nextIn + availIn <= BUFSIZ && 1 <= availOut <= BUFSIZ
      invariant Inv(input, s)
      invariant s == Session(cursor, inbuf[nextIn..nextIn + availIn], outbuf[..BUFSIZ - availOut], action, state, fOut.data)
      invariant passes <= fuel && Loop(codec, input, s, fuel - passes) == Loop(codec, input, Start(decoder), fuel)
      decreases fuel - passes
    {
      var ret;
      ret, state, nextIn, availIn, availOut, cursor, action :=
        Pass(codec, xzFile, inbuf, outbuf, fOut, eof, s, state, nextIn, availIn, availOut, cursor, action);
      if ret != LzmaOk {
        if ret == LzmaStreamEnd {
          return StreamEnd(fOut.data);
        }
        return CodecError(ret, fOut.data);
      }
      StepKeepsInv(codec, input, s);
      s := Step(codec, input, s).session;
      passes := passes + 1;
    }
    return Unfinished(fOut.data);
  }
}
