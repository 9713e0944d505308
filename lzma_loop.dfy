/** What the `while True` loop of `decompress` does, as functions of the input
    file's bytes and of the codec. liblzma's `lzma_code` is not modelled: it is a
    function value `codec` taking the decoder state, the unconsumed input window,
    `avail_out` and the action, and answering how many input bytes it consumed,
    the bytes it produced, its return code and its next state. */
module LzmaLoop {
  import opened Bytes

  /** Size of the input buffer and of the output buffer. */
  const BUFSIZ: nat := 65535
  const LzmaOk: int := 0
  const LzmaStreamEnd: int := 1

  /** LZMA_RUN (0) and LZMA_FINISH (3). */
  datatype Action = Run | Finish

  /** The effect of one `lzma_code(byref(strm), action)` call. */
  datatype CodeStep<S> = CodeStep(consumed: nat, produced: seq<byte>, ret: int, next: S)

  type Codec<!S> = (S, seq<byte>, nat, Action) -> CodeStep<S>

  /** liblzma's contract for `lzma_code`: it never takes more than `avail_in`
      bytes and never writes more than `avail_out`. */
  ghost predicate Honest<S(!new)>(codec: Codec<S>)
  {
    forall s, window, availOut, action ::
      codec(s, window, availOut, action).consumed <= |window| &&
      |codec(s, window, availOut, action).produced| <= availOut
  }

  /** The loop's variables between two passes: `cursor`; the unconsumed input
      `inbuf[next_in:next_in+avail_in]`; the undelivered output
      `outbuf[:BUFSIZ-avail_out]`; `action`; the decoder; and what `f_out` holds. */
  datatype Session<S> = Session(cursor: nat, window: seq<byte>, buffered: seq<byte>,
                                action: Action, decoder: S, written: seq<byte>)

  /** The state on entry to the loop: nothing read from the file, an empty
      input window, an empty output buffer, RUN, and an empty output file. */
  function Start<S(!new)>(decoder: S): (s: Session<S>)
    ensures s.cursor == 0 && s.window == [] && s.buffered == [] && s.written == []
    ensures s.action == Run && s.decoder == decoder
  {
    Session(0, [], [], Run, decoder, [])
  }

  /** The refill at the top of the loop body: only once the decoder has taken
      the whole window and the file still has bytes, it reads up to BUFSIZ more;
      reaching end-of-file switches the action to FINISH. */
  function Refill<S(!new)>(input: seq<byte>, s: Session<S>): Session<S>
  {
    if |s.window| == 0 && s.cursor < |input| then
      var chunk := ReadAt(input, s.cursor, BUFSIZ);
      var cursor := s.cursor + |chunk|;
      s.(cursor := cursor, window := chunk, action := if cursor >= |input| then Finish else s.action)
    else s
  }

  /** One call to `lzma_code`: the position of the cursor, the window and
      `avail_out` it was given, the action, and what it answered. */
  datatype Call<S> = Call(cursor: nat, window: seq<byte>, availOut: nat, action: Action, result: CodeStep<S>)

  function NextCall<S(!new)>(codec: Codec<S>, input: seq<byte>, s: Session<S>): Call<S>
    requires |s.buffered| <= BUFSIZ
  {
    var r := Refill(input, s);
    var availOut := BUFSIZ - |r.buffered|;
    Call(r.cursor, r.window, availOut, r.action, codec(r.decoder, r.window, availOut, r.action))
  }

  datatype Status<S> =
    | Continue(session: Session<S>)
    | Ended(output: seq<byte>)             // LZMA_STREAM_END: return True
    | Raised(code: int, output: seq<byte>) // any other code: raise Exception

  /** One pass through the loop body. The output buffer is flushed when it is
      full or the stream has ended. */
  function Step<S(!new)>(codec: Codec<S>, input: seq<byte>, s: Session<S>): (st: Status<S>)
    requires Honest(codec) && |s.buffered| < BUFSIZ
    ensures st.Continue? ==> |st.session.buffered| < BUFSIZ
  {
    var c := NextCall(codec, input, s);
    var res := c.result;
    var full := s.buffered + res.produced;
    var flush := |full| == BUFSIZ || res.ret == LzmaStreamEnd;
    var written := if flush then s.written + full else s.written;
    if res.ret == LzmaOk then
      Continue(Session(c.cursor, c.window[res.consumed..], if flush then [] else full, c.action, res.next, written))
    else if res.ret == LzmaStreamEnd then Ended(written)
    else Raised(res.ret, written)
  }

  /** Step, given the refilled session `r` and the codec's answer `res` to it. */
  lemma StepFromCall<S(!new)>(codec: Codec<S>, input: seq<byte>, s: Session<S>, r: Session<S>, res: CodeStep<S>)
    requires Honest(codec) && |s.buffered| < BUFSIZ
    requires Refill(input, s) == r
    requires res == codec(r.decoder, r.window, BUFSIZ - |s.buffered|, r.action)
    ensures var full := s.buffered + res.produced;
            var flush := |full| == BUFSIZ || res.ret == LzmaStreamEnd;
            var written := if flush then s.written + full else s.written;
            Step(codec, input, s) ==
              if res.ret == LzmaOk then
                Continue(Session(r.cursor, r.window[res.consumed..], if flush then [] else full, r.action, res.next, written))
              else if res.ret == LzmaStreamEnd then Ended(written)
              else Raised(res.ret, written)
  {
  }

  /** How `decompress` ends: True, the exception for any other code, or (the
      loop ran `fuel` times without either) still running. Each carries what
      the output file holds. */
  datatype Decoded =
    | StreamEnd(output: seq<byte>)
    | CodecError(code: int, output: seq<byte>)
    | Unfinished(output: seq<byte>)

  /** At most `fuel` passes of the loop from `s`. */
  function Loop<S(!new)>(codec: Codec<S>, input: seq<byte>, s: Session<S>, fuel: nat): Decoded
    requires Honest(codec) && |s.buffered| < BUFSIZ
    decreases fuel
  {
    if fuel == 0 then Unfinished(s.written)
    else
      match Step(codec, input, s)
      case Continue(t) => Loop(codec, input, t, fuel - 1)
      case Ended(out) => StreamEnd(out)
      case Raised(code, out) => CodecError(code, out)
  }

  /** The calls `lzma_code` receives during `Loop(codec, input, s, fuel)`, in order. */
  function Trace<S(!new)>(codec: Codec<S>, input: seq<byte>, s: Session<S>, fuel: nat): seq<Call<S>>
    requires Honest(codec) && |s.buffered| < BUFSIZ
    decreases fuel
  {
    if fuel == 0 then []
    else
      match Step(codec, input, s)
      case Continue(t) => [NextCall(codec, input, s)] + Trace(codec, input, t, fuel - 1)
      case _ => [NextCall(codec, input, s)]
  }

  /** The bytes the codec produced over a sequence of calls, in order. */
  function Produced<S(!new)>(calls: seq<Call<S>>): seq<byte>
  {
    if calls == [] then [] else calls[0].result.produced + Produced(calls[1..])
  }

  /** The input bytes the codec took over a sequence of calls, in order. */
  function Fed<S(!new)>(calls: seq<Call<S>>): seq<byte>
    requires forall i :: 0 <= i < |calls| ==> calls[i].result.consumed <= |calls[i].window|
  {
    if calls == [] then [] else calls[0].window[..calls[0].result.consumed] + Fed(calls[1..])
  }

  // ----- the loop invariant -----

  /** What holds between passes: the cursor is within end-of-file; the window
      is the part of the last read the decoder has not taken, so it ends at the
      cursor and is at most BUFSIZ long; the output buffer has room; the action
      is FINISH exactly when a read has reached end-of-file; and only full
      buffers have been written so far. */
  ghost predicate Inv<S(!new)>(input: seq<byte>, s: Session<S>)
  {
    && s.cursor <= |input|
    && |s.window| <= s.cursor
    && |s.window| <= BUFSIZ
    && s.window == input[s.cursor - |s.window|..s.cursor]
    && |s.buffered| < BUFSIZ
    && (s.action == Finish <==> 0 < s.cursor == |input|)
    && |s.written| % BUFSIZ == 0
  }

  /** What holds of every call to `lzma_code`. */
  ghost predicate CallOk<S(!new)>(input: seq<byte>, c: Call<S>)
  {
    && c.cursor <= |input|
    && |c.window| <= c.cursor
    && |c.window| <= BUFSIZ
    && c.window == input[c.cursor - |c.window|..c.cursor]
    && 1 <= c.availOut <= BUFSIZ
    && (c.action == Finish <==> 0 < c.cursor == |input|)
    && (c.window == [] ==> c.cursor == |input|)
    && c.result.consumed <= |c.window|
    && |c.result.produced| <= c.availOut
  }

  /** Every call in `calls` satisfies CallOk. */
  ghost predicate AllCallsOk<S(!new)>(input: seq<byte>, calls: seq<Call<S>>)
  {
    forall i :: 0 <= i < |calls| ==> CallOk(input, calls[i])
  }

  /** Along `calls` the cursor never moves back and the action never returns
      from FINISH to RUN. */
  ghost predicate Forward<S(!new)>(calls: seq<Call<S>>)
  {
    forall i, j :: 0 <= i < j < |calls| ==>
      calls[i].cursor <= calls[j].cursor && (calls[i].action == Finish ==> calls[j].action == Finish)
  }

  lemma StartInv<S(!new)>(input: seq<byte>, decoder: S)
    ensures Inv(input, Start(decoder))
  {
  }

  /** The refill reads only into a drained window and only while the file has
      bytes left, and then exactly min(BUFSIZ, bytes left); the cursor and the
      action only move forward. */
  lemma RefillKeepsInv<S(!new)>(input: seq<byte>, s: Session<S>)
    requires Inv(input, s)
    ensures Inv(input, Refill(input, s))
    ensures Refill(input, s).window == [] ==> Refill(input, s).cursor == |input|
    ensures Refill(input, s).cursor != s.cursor ==>
              && s.window == [] && s.cursor < |input|
              && Refill(input, s).cursor - s.cursor == (if |input| - s.cursor < BUFSIZ then |input| - s.cursor else BUFSIZ)
    ensures s.cursor <= Refill(input, s).cursor
    ensures s.action == Finish ==> Refill(input, s).action == Finish
    ensures Refill(input, s).cursor - |Refill(input, s).window| == s.cursor - |s.window|
  {
    if |s.window| == 0 && s.cursor < |input| {
      var chunk := ReadAt(input, s.cursor, BUFSIZ);
      assert chunk == input[s.cursor..s.cursor + |chunk|];
    }
  }

  lemma NextCallOk<S(!new)>(codec: Codec<S>, input: seq<byte>, s: Session<S>)
    requires Honest(codec) && Inv(input, s)
    ensures CallOk(input, NextCall(codec, input, s))
    ensures s.cursor <= NextCall(codec, input, s).cursor
    ensures s.action == Finish ==> NextCall(codec, input, s).action == Finish
  {
    RefillKeepsInv(input, s);
  }

  /** The session after a pass that continues, spelled out. */
  lemma ContinueSession<S(!new)>(codec: Codec<S>, input: seq<byte>, s: Session<S>)
    requires Honest(codec) && |s.buffered| < BUFSIZ
    requires Step(codec, input, s).Continue?
    ensures var c := NextCall(codec, input, s);
            var full := s.buffered + c.result.produced;
            var flush := |full| == BUFSIZ;
            && c.result.ret == LzmaOk
            && Step(codec, input, s).session ==
                 Session(c.cursor, c.window[c.result.consumed..], if flush then [] else full, c.action,
                         c.result.next, if flush then s.written + full else s.written)
  {
  }

  /** A pass that continues keeps the invariant. */
  lemma StepKeepsInv<S(!new)>(codec: Codec<S>, input: seq<byte>, s: Session<S>)
    requires Honest(codec) && Inv(input, s)
    requires Step(codec, input, s).Continue?
    ensures Inv(input, Step(codec, input, s).session)
  {
    RefillKeepsInv(input, s);
    NextCallOk(codec, input, s);
    ContinueSession(codec, input, s);
    var c := NextCall(codec, input, s);
    var t := Step(codec, input, s).session;
    var lo := c.cursor - |c.window|;
    assert c.window == input[lo..c.cursor];
    assert t.window == input[lo + c.result.consumed..c.cursor];
    if |s.buffered + c.result.produced| == BUFSIZ {
      WholeBuffers(|s.written|);
    }
  }

  /** A pass that continues delivers (to the file or the buffer) exactly what
      the codec produced, having taken exactly what it consumed, and leaves
      the cursor and the action where the call saw them. */
  lemma StepContinues<S(!new)>(codec: Codec<S>, input: seq<byte>, s: Session<S>)
    requires Honest(codec) && Inv(input, s)
    requires Step(codec, input, s).Continue?
    ensures var c := NextCall(codec, input, s);
            var t := Step(codec, input, s).session;
            && t.cursor == c.cursor && t.action == c.action
            && s.written <= t.written
            && t.written + t.buffered == s.written + s.buffered + c.result.produced
            && t.cursor - |t.window| == s.cursor - |s.window| + c.result.consumed
  {
    var r := Refill(input, s);
    var res := codec(r.decoder, r.window, BUFSIZ - |s.buffered|, r.action);
    assert NextCall(codec, input, s) == Call(r.cursor, r.window, BUFSIZ - |s.buffered|, r.action, res);
    StepFromCall(codec, input, s, r, res);
    assert r.cursor - |r.window| == s.cursor - |s.window| && r.buffered == s.buffered && r.written == s.written by {
      RefillKeepsInv(input, s);
    }
  }

  /** A pass that ends on LZMA_STREAM_END writes out everything still buffered
      and everything the last call produced. */
  lemma StepEnds<S(!new)>(codec: Codec<S>, input: seq<byte>, s: Session<S>)
    requires Honest(codec) && Inv(input, s)
    requires Step(codec, input, s).Ended?
    ensures Step(codec, input, s).output == s.written + s.buffered + NextCall(codec, input, s).result.produced
  {
  }

  /** A pass that raises writes the buffer only if it is full, so the file
      holds whole buffers only. */
  lemma StepRaises<S(!new)>(codec: Codec<S>, input: seq<byte>, s: Session<S>)
    requires Honest(codec) && Inv(input, s)
    requires Step(codec, input, s).Raised?
    ensures var out := Step(codec, input, s).output;
            && Step(codec, input, s).code != LzmaOk && Step(codec, input, s).code != LzmaStreamEnd
            && s.written <= out <= s.written + s.buffered + NextCall(codec, input, s).result.produced
            && |out| % BUFSIZ == 0
  {
    var full := s.buffered + NextCall(codec, input, s).result.produced;
    if |full| == BUFSIZ {
      WholeBuffers(|s.written|);
    }
  }

  lemma WholeBuffers(n: nat)
    requires n % BUFSIZ == 0
    ensures (n + BUFSIZ) % BUFSIZ == 0
  {
  }

  lemma TraceUnfold<S(!new)>(codec: Codec<S>, input: seq<byte>, s: Session<S>, fuel: nat)
    requires Honest(codec) && |s.buffered| < BUFSIZ && fuel > 0
    ensures Trace(codec, input, s, fuel) ==
              [NextCall(codec, input, s)] +
              (if Step(codec, input, s).Continue? then Trace(codec, input, Step(codec, input, s).session, fuel - 1) else [])
  {
  }

  // ----- properties of the whole run -----

  lemma ConsCallsOk<S(!new)>(input: seq<byte>, c: Call<S>, rest: seq<Call<S>>)
    requires CallOk(input, c) && AllCallsOk(input, rest)
    ensures AllCallsOk(input, [c] + rest)
  {
    forall i | 0 < i < |[c] + rest|
      ensures ([c] + rest)[i] == rest[i - 1]
    {
    }
  }

  lemma ConsForward<S(!new)>(c: Call<S>, rest: seq<Call<S>>)
    requires Forward(rest)
    requires forall d :: d in rest ==> c.cursor <= d.cursor && (c.action == Finish ==> d.action == Finish)
    ensures Forward([c] + rest)
  {
    var calls := [c] + rest;
    forall i, j | 0 <= i < j < |calls|
      ensures calls[i].cursor <= calls[j].cursor
      ensures calls[i].action == Finish ==> calls[j].action == Finish
    {
      assert calls[j] == rest[j - 1] && calls[j] in rest;
      if i > 0 {
        assert calls[i] == rest[i - 1];
      }
    }
  }

  /** What holds of the calls made from session `s` on: each satisfies
      CallOk, the cursor never moves back from where `s` had it, and the
      action never switches back from FINISH to RUN. */
  ghost predicate CallsFrom<S(!new)>(input: seq<byte>, s: Session<S>, calls: seq<Call<S>>)
  {
    && AllCallsOk(input, calls)
    && Forward(calls)
    && (forall c :: c in calls ==> s.cursor <= c.cursor)
    && (s.action == Finish ==> forall c :: c in calls ==> c.action == Finish)
  }

  /** The inductive step of TraceCallsOk. */
  lemma CallsFromStep<S(!new)>(codec: Codec<S>, input: seq<byte>, s: Session<S>, fuel: nat)
    requires Honest(codec) && Inv(input, s) && fuel > 0
    requires var st := Step(codec, input, s);
             st.Continue? ==> CallsFrom(input, st.session, Trace(codec, input, st.session, fuel - 1))
    ensures CallsFrom(input, s, Trace(codec, input, s, fuel))
  {
    NextCallOk(codec, input, s);
    TraceUnfold(codec, input, s, fuel);
    var c := NextCall(codec, input, s);
    var rest: seq<Call<S>> := [];
    if Step(codec, input, s).Continue? {
      StepContinues(codec, input, s);
      rest := Trace(codec, input, Step(codec, input, s).session, fuel - 1);
    }
    assert Trace(codec, input, s, fuel) == [c] + rest;
    ConsCallsOk(input, c, rest);
    ConsForward(c, rest);
  }

  /** Every call the loop makes satisfies CallOk; the cursor never moves back
      and the action never switches back from FINISH to RUN. */
  lemma {:induction false} TraceCallsOk<S(!new)>(codec: Codec<S>, input: seq<byte>, s: Session<S>, fuel: nat)
    requires Honest(codec) && Inv(input, s)
    ensures CallsFrom(input, s, Trace(codec, input, s, fuel))
    decreases fuel
  {
    if fuel > 0 {
      if Step(codec, input, s).Continue? {
        var t := Step(codec, input, s).session;
        assert CallsFrom(input, t, Trace(codec, input, t, fuel - 1)) by {
          StepKeepsInv(codec, input, s);
          TraceCallsOk(codec, input, t, fuel - 1);
        }
      }
      CallsFromStep(codec, input, s, fuel);
    }
  }

  /** An empty input file is never read: every call gets an empty window and
      the action RUN. */
  lemma EmptyInputStaysRun<S(!new)>(codec: Codec<S>, decoder: S, fuel: nat)
    requires Honest(codec)
    ensures forall c :: c in Trace(codec, [], Start(decoder), fuel) ==> c.action == Run && c.window == []
  {
    var calls := Trace(codec, [], Start(decoder), fuel);
    TraceCallsOk(codec, [], Start(decoder), fuel);
    forall c | c in calls
      ensures c.action == Run && c.window == []
    {
      var i :| 0 <= i < |calls| && calls[i] == c;
      assert CallOk([], calls[i]);
    }
  }

  lemma ProducedCons<S(!new)>(c: Call<S>, rest: seq<Call<S>>)
    ensures Produced([c] + rest) == c.result.produced + Produced(rest)
  {
    assert ([c] + rest)[0] == c && ([c] + rest)[1..] == rest;
  }

  /** The output file holds at least `before` and at most `all`, and all of
      it if the stream ended. */
  ghost predicate OutputWithin(d: Decoded, before: seq<byte>, all: seq<byte>)
  {
    && before <= d.output <= all
    && (d.StreamEnd? ==> d.output == all)
  }

  /** Unless the stream ended, the output file holds whole buffers only; an
      error code is neither LZMA_OK nor LZMA_STREAM_END. */
  ghost predicate WholeBuffersOnly(d: Decoded)
  {
    && (!d.StreamEnd? ==> |d.output| % BUFSIZ == 0)
    && (d.CodecError? ==> d.code != LzmaOk && d.code != LzmaStreamEnd)
  }

  /** What the output file holds is always a prefix of everything the codec
      produced, in order; on LZMA_STREAM_END it is all of it. */
  lemma {:induction false} RunOutput<S(!new)>(codec: Codec<S>, input: seq<byte>, s: Session<S>, fuel: nat)
    requires Honest(codec) && Inv(input, s)
    ensures OutputWithin(Loop(codec, input, s, fuel), s.written, s.written + s.buffered + Produced(Trace(codec, input, s, fuel)))
    decreases fuel
  {
    if fuel > 0 {
      if Step(codec, input, s).Continue? {
        var t := Step(codec, input, s).session;
        assert OutputWithin(Loop(codec, input, t, fuel - 1), t.written, t.written + t.buffered + Produced(Trace(codec, input, t, fuel - 1))) by {
          StepKeepsInv(codec, input, s);
          RunOutput(codec, input, t, fuel - 1);
        }
        ContinueOutput(codec, input, s, fuel);
      } else {
        StoppedOutput(codec, input, s, fuel);
      }
    }
  }

  /** The inductive step of RunOutput. */
  lemma ContinueOutput<S(!new)>(codec: Codec<S>, input: seq<byte>, s: Session<S>, fuel: nat)
    requires Honest(codec) && Inv(input, s) && fuel > 0
    requires Step(codec, input, s).Continue?
    requires var t := Step(codec, input, s).session;
             OutputWithin(Loop(codec, input, t, fuel - 1), t.written, t.written + t.buffered + Produced(Trace(codec, input, t, fuel - 1)))
    ensures OutputWithin(Loop(codec, input, s, fuel), s.written, s.written + s.buffered + Produced(Trace(codec, input, s, fuel)))
  {
    var c := NextCall(codec, input, s);
    var t := Step(codec, input, s).session;
    var rest := Trace(codec, input, t, fuel - 1);
    assert Trace(codec, input, s, fuel) == [c] + rest by {
      TraceUnfold(codec, input, s, fuel);
    }
    assert s.written <= t.written && s.written + s.buffered + Produced([c] + rest) == t.written + t.buffered + Produced(rest) by {
      StepContinues(codec, input, s);
      ProducedCons(c, rest);
    }
    assert Loop(codec, input, s, fuel) == Loop(codec, input, t, fuel - 1);
    PrefixTransitive(s.written, t.written, Loop(codec, input, t, fuel - 1).output);
  }

  /** RunOutput when the first pass ends the loop. */
  lemma StoppedOutput<S(!new)>(codec: Codec<S>, input: seq<byte>, s: Session<S>, fuel: nat)
    requires Honest(codec) && Inv(input, s) && fuel > 0
    requires !Step(codec, input, s).Continue?
    ensures OutputWithin(Loop(codec, input, s, fuel), s.written, s.written + s.buffered + Produced(Trace(codec, input, s, fuel)))
  {
    TraceUnfold(codec, input, s, fuel);
    ProducedCons(NextCall(codec, input, s), []);
    if Step(codec, input, s).Ended? {
      StepEnds(codec, input, s);
    } else {
      StepRaises(codec, input, s);
    }
  }

  lemma PrefixTransitive(a: seq<byte>, b: seq<byte>, c: seq<byte>)
    requires a <= b && b <= c
    ensures a <= c
  {
    assert c[..|a|] == b[..|a|];
  }

  /** Any way out other than LZMA_STREAM_END leaves only whole BUFSIZ buffers
      in the file: on an error the bytes still in the output buffer are never
      written. The error carries the code, which is neither LZMA_OK nor
      LZMA_STREAM_END. */
  lemma {:induction false} RunWholeBuffers<S(!new)>(codec: Codec<S>, input: seq<byte>, s: Session<S>, fuel: nat)
    requires Honest(codec) && Inv(input, s)
    ensures WholeBuffersOnly(Loop(codec, input, s, fuel))
    decreases fuel
  {
    if fuel > 0 {
      match Step(codec, input, s)
      case Continue(t) =>
        StepKeepsInv(codec, input, s);
        RunWholeBuffers(codec, input, t, fuel - 1);
      case Ended(_) =>
      case Raised(_, _) =>
        StepRaises(codec, input, s);
    }
  }

  lemma FedCons<S(!new)>(c: Call<S>, rest: seq<Call<S>>)
    requires c.result.consumed <= |c.window|
    requires forall i :: 0 <= i < |rest| ==> rest[i].result.consumed <= |rest[i].window|
    ensures forall i :: 0 <= i < |[c] + rest| ==> ([c] + rest)[i].result.consumed <= |([c] + rest)[i].window|
    ensures Fed([c] + rest) == c.window[..c.result.consumed] + Fed(rest)
  {
    assert ([c] + rest)[0] == c && ([c] + rest)[1..] == rest;
    forall i | 0 < i < |[c] + rest|
      ensures ([c] + rest)[i] == rest[i - 1]
    {
    }
  }

  /** Every call of `calls` took no more than its window, and together they
      took the bytes of `input` from `from` on, in order. */
  ghost predicate FedFrom<S(!new)>(input: seq<byte>, from: nat, calls: seq<Call<S>>)
  {
    && (forall i :: 0 <= i < |calls| ==> calls[i].result.consumed <= |calls[i].window|)
    && from <= |input|
    && Fed(calls) <= input[from..]
  }

  /** The next call takes its bytes from where the input not yet taken starts. */
  lemma CallTakesNext<S(!new)>(codec: Codec<S>, input: seq<byte>, s: Session<S>)
    requires Honest(codec) && Inv(input, s)
    ensures var c := NextCall(codec, input, s);
            var pos := s.cursor - |s.window|;
            && c.result.consumed <= |c.window|
            && pos + c.result.consumed <= |input|
            && input[pos..] == c.window[..c.result.consumed] + input[pos + c.result.consumed..]
  {
    var c := NextCall(codec, input, s);
    var pos := s.cursor - |s.window|;
    var k := c.result.consumed;
    assert CallOk(input, c) && c.cursor - |c.window| == pos by {
      RefillKeepsInv(input, s);
      NextCallOk(codec, input, s);
    }
    assert c.window[..k] == input[pos..pos + k];
    assert input[pos..] == input[pos..pos + k] + input[pos + k..];
  }

  /** The inductive step of FedInOrder, for a pass that continues. */
  lemma FedStep<S(!new)>(codec: Codec<S>, input: seq<byte>, s: Session<S>, fuel: nat)
    requires Honest(codec) && Inv(input, s) && fuel > 0
    requires Step(codec, input, s).Continue?
    requires var t := Step(codec, input, s).session;
             FedFrom(input, t.cursor - |t.window|, Trace(codec, input, t, fuel - 1))
    ensures FedFrom(input, s.cursor - |s.window|, Trace(codec, input, s, fuel))
  {
    var c := NextCall(codec, input, s);
    var t := Step(codec, input, s).session;
    var rest := Trace(codec, input, t, fuel - 1);
    CallTakesNext(codec, input, s);
    assert Trace(codec, input, s, fuel) == [c] + rest by {
      TraceUnfold(codec, input, s, fuel);
    }
    assert t.cursor - |t.window| == s.cursor - |s.window| + c.result.consumed by {
      StepContinues(codec, input, s);
    }
    FedCons(c, rest);
  }

  /** FedInOrder when the first pass ends the loop. */
  lemma FedLast<S(!new)>(codec: Codec<S>, input: seq<byte>, s: Session<S>, fuel: nat)
    requires Honest(codec) && Inv(input, s) && fuel > 0
    requires !Step(codec, input, s).Continue?
    ensures FedFrom(input, s.cursor - |s.window|, Trace(codec, input, s, fuel))
  {
    var c := NextCall(codec, input, s);
    CallTakesNext(codec, input, s);
    assert Trace(codec, input, s, fuel) == [c] by {
      TraceUnfold(codec, input, s, fuel);
    }
    FedCons(c, []);
  }

  /** The codec is handed the file's bytes in order: what it takes over the
      whole run continues exactly where the bytes it had taken before left off,
      with nothing skipped or taken twice. */
  lemma {:induction false} FedInOrder<S(!new)>(codec: Codec<S>, input: seq<byte>, s: Session<S>, fuel: nat)
    requires Honest(codec) && Inv(input, s)
    ensures FedFrom(input, s.cursor - |s.window|, Trace(codec, input, s, fuel))
    decreases fuel
  {
    if fuel > 0 {
      if Step(codec, input, s).Continue? {
        var t := Step(codec, input, s).session;
        assert FedFrom(input, t.cursor - |t.window|, Trace(codec, input, t, fuel - 1)) by {
          StepKeepsInv(codec, input, s);
          FedInOrder(codec, input, t, fuel - 1);
        }
        FedStep(codec, input, s, fuel);
      } else {
        FedLast(codec, input, s, fuel);
      }
    }
  }

  /** From the start of `decompress`: every call is well formed and they move
      forward; on LZMA_STREAM_END the output file holds exactly the
      concatenation of everything the codec produced; and the codec has been
      fed a prefix of the input file, in order. */
  lemma DecompressRun<S(!new)>(codec: Codec<S>, decoder: S, input: seq<byte>, fuel: nat)
    requires Honest(codec)
    ensures AllCallsOk(input, Trace(codec, input, Start(decoder), fuel))
    ensures Forward(Trace(codec, input, Start(decoder), fuel))
    ensures OutputWithin(Loop(codec, input, Start(decoder), fuel), [], Produced(Trace(codec, input, Start(decoder), fuel)))
    ensures WholeBuffersOnly(Loop(codec, input, Start(decoder), fuel))
    ensures Fed(Trace(codec, input, Start(decoder), fuel)) <= input
  {
    var s := Start(decoder);
    StartInv(input, decoder);
    TraceCallsOk(codec, input, s, fuel);
    RunOutput(codec, input, s, fuel);
    RunWholeBuffers(codec, input, s, fuel);
    FedInOrder(codec, input, s, fuel);
    assert input[s.cursor - |s.window|..] == input;
  }
}
