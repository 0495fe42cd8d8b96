/** The stream context: fixed buffers for the output and for what is left over between chunks. */
module ZstdContext {
  import opened Words
  import opened ZstdStream

  /** What a call answers: the size still expected, the invalid-state mark, or the codec's error code. */
  datatype Answer = Left(size: int) | InvalidStreamState | ZstdError

  class ZstdStreamContext<S(!new)> {
    const decoder: Decoder<S>
    const output: array<Byte>
    const leftover: array<Byte>
    var state: State
    var outputUsed: nat
    var leftoverUsed: nat
    var dctx: S
    var expectedLeft: int
    ghost var calls: seq<Call>

    constructor (decoder: Decoder<S>, dctx: S, output: array<Byte>, leftover: array<Byte>)
      requires Sound(decoder) && output != leftover && output.Length < WORD64
      ensures Valid() && this.decoder == decoder && this.output == output && this.leftover == leftover
      ensures Now() == View(Begin, Core(dctx, [], []), [], 0)
    {
      this.decoder, this.dctx, this.output, this.leftover := decoder, dctx, output, leftover;
      state, outputUsed, leftoverUsed, expectedLeft, calls := Begin, 0, 0, 0, [];
    }

    /** The context as a value. After an error the leftover buffer means nothing. */
    ghost function Now(): View<S>
      requires outputUsed <= output.Length && leftoverUsed <= leftover.Length
      reads this, output, leftover
    {
      View(state, Core(dctx, output[..outputUsed], calls), if state == Error then [] else leftover[..leftoverUsed],
           expectedLeft)
    }

    ghost predicate Valid()
      reads this, output, leftover
    {
      && output != leftover && output.Length < WORD64 && Sound(decoder)
      && outputUsed <= output.Length && leftoverUsed <= leftover.Length
      && Ready(decoder, output.Length, leftover.Length, Now())
    }

    /** Reads the frame header if that has not been done, and tells whether streaming can go on. */
    method Open(chunk: seq<Byte>) returns (ok: bool, r: Answer)
      requires Valid() && state != Error
      modifies this`state, this`dctx, this`expectedLeft
      ensures Valid() && Now() == Opened(decoder, output.Length, old(Now()), chunk)
      ensures ok <==> state in {Streaming, Finished}
      ensures !ok ==> r == if state == Error then InvalidStreamState else ZstdError
    {
      if state != Begin {
        return true, Left(expectedLeft);
      }
      match decoder.contentSize(chunk) {
        case None =>
          state := Error;
          return false, InvalidStreamState;
        case Some(n) =>
          if output.Length < n {
            state := Error;
            return false, InvalidStreamState;
          }
          expectedLeft := n;
      }
      match decoder.begin {
        case None => return false, ZstdError;
        case Some(s) =>
          dctx := s;
          state := Streaming;
      }
      return true, Left(expectedLeft);
    }

    /** Gives a block to the decoder, which writes what it makes of it behind the output so far. */
    method DecompressContinue(block: seq<Byte>) returns (ok: bool, n: nat)
      requires Sound(decoder) && outputUsed <= output.Length
      modifies this`dctx, this`outputUsed, this`calls, output
      ensures var room := old(output.Length - outputUsed);
        var r := decoder.decode(old(dctx), room, block);
        && calls == old(calls) + [Call(room, block)]
        && ok == r.Decoded?
        && old(outputUsed) <= outputUsed <= output.Length
        && (!ok ==> dctx == old(dctx) && outputUsed == old(outputUsed)
                    && output[..outputUsed] == old(output[..outputUsed]))
        && (ok ==> dctx == r.state && n == |r.bytes| && output[..outputUsed] == old(output[..outputUsed]) + r.bytes)
    {
      var room := output.Length - outputUsed;
      calls := calls + [Call(room, block)];
      match decoder.decode(dctx, room, block) {
        case DecodeError => return false, 0;
        case Decoded(s, bytes) =>
          n := |bytes|;
          forall k | 0 <= k < n {
            output[outputUsed + k] := bytes[k];
          }
          dctx := s;
          outputUsed := outputUsed + n;
          return true, n;
      }
    }

    /** Copies part of the chunk behind what is left over. */
    method Keep(chunk: seq<Byte>, from: nat, n: nat)
      requires from + n <= |chunk| && leftoverUsed + n <= leftover.Length
      modifies this`leftoverUsed, leftover
      ensures leftoverUsed == old(leftoverUsed) + n
      ensures leftover[..leftoverUsed] == old(leftover[..leftoverUsed]) + chunk[from..from + n]
    {
      forall k | 0 <= k < n {
        leftover[leftoverUsed + k] := chunk[from + k];
      }
      leftoverUsed := leftoverUsed + n;
    }

    ghost function NowCore(): Core<S>
      requires outputUsed <= output.Length
      reads this, output
    {
      Core(dctx, output[..outputUsed], calls)
    }

    /** Where the loop stands: what is left over and the rest of the chunk are still to be fed. */
    ghost predicate Midway(o: View<S>, chunk: seq<Byte>, i: int)
      requires |o.core.out| <= output.Length && Sound(decoder)
      reads this, output, leftover
    {
      && 0 <= i <= |chunk| && outputUsed <= output.Length && leftoverUsed <= leftover.Length
      && (leftoverUsed != 0 ==> leftoverUsed < decoder.next(dctx) <= leftover.Length)
      && state == o.state
      && expectedLeft == (o.expected - (outputUsed - |o.core.out|)) % WORD64
      && Feed(decoder, output.Length, o.core, o.left + chunk)
         == Feed(decoder, output.Length, NowCore(), leftover[..leftoverUsed] + chunk[i..])
    }

    lemma NothingLeftOver(o: View<S>, chunk: seq<Byte>, i: int)
      requires |o.core.out| <= output.Length && Sound(decoder)
      requires 0 <= i <= |chunk| && outputUsed <= output.Length && leftoverUsed == 0 && state == o.state
      requires expectedLeft == (o.expected - (outputUsed - |o.core.out|)) % WORD64
      requires Feed(decoder, output.Length, o.core, o.left + chunk)
        == Feed(decoder, output.Length, NowCore(), chunk[i..])
      ensures Midway(o, chunk, i)
    {
      assert leftover[..leftoverUsed] + chunk[i..] == chunk[i..];
    }

    /** Decodes a block that is all there. */
    method Decode(ghost o: View<S>, ghost chunk: seq<Byte>, ghost i: int, block: seq<Byte>) returns (ok: bool)
      requires |o.core.out| <= output.Length && Sound(decoder) && output != leftover
      requires 0 <= i <= |chunk| && outputUsed <= output.Length
      requires 0 < |block| == decoder.next(dctx)
      requires expectedLeft == (o.expected - (outputUsed - |o.core.out|)) % WORD64
      requires Feed(decoder, output.Length, o.core, o.left + chunk)
        == Feed(decoder, output.Length, NowCore(), block + chunk[i..])
      modifies this`state, this`dctx, this`expectedLeft, this`outputUsed, this`calls, output
      ensures outputUsed <= output.Length
      ensures expectedLeft == (o.expected - (outputUsed - |o.core.out|)) % WORD64
      ensures var f := Feed(decoder, output.Length, o.core, o.left + chunk);
        if ok then state == old(state) && f == Feed(decoder, output.Length, NowCore(), chunk[i..])
        else state == Error && f == Failed(NowCore())
    {
      FeedStep(decoder, output.Length, NowCore(), block + chunk[i..], block, chunk[i..]);
      var n;
      ok, n := DecompressContinue(block);
      if !ok {
        state := Error;
        return;
      }
      expectedLeft := (expectedLeft - n) % WORD64;
    }

    /** The call is over: the context is what feeding the whole chunk makes of it. */
    ghost predicate Over(o: View<S>, chunk: seq<Byte>)
      requires |o.core.out| <= output.Length && Sound(decoder)
      reads this, output, leftover
    {
      && outputUsed <= output.Length && leftoverUsed <= leftover.Length
      && Now() == Settled(decoder, leftover.Length, o, Feed(decoder, output.Length, o.core, o.left + chunk))
    }

    lemma FailedIsOver(o: View<S>, chunk: seq<Byte>)
      requires |o.core.out| <= output.Length && Sound(decoder)
      requires outputUsed <= output.Length && leftoverUsed <= leftover.Length && state == Error
      requires expectedLeft == (o.expected - (outputUsed - |o.core.out|)) % WORD64
      requires Feed(decoder, output.Length, o.core, o.left + chunk) == Failed(NowCore())
      ensures Over(o, chunk)
    {
    }

    /** Keeps the rest of a chunk back, which is shorter than the block that the decoder wants. */
    method KeepRest(ghost o: View<S>, chunk: seq<Byte>, i: int, next: nat)
      requires |o.core.out| <= output.Length && Sound(decoder) && output != leftover && state != Error
      requires Midway(o, chunk, i) && i < |chunk| && leftoverUsed == 0 && |chunk| - i < next == decoder.next(dctx)
      modifies this`state, this`leftoverUsed, leftover
      ensures Over(o, chunk) && state == if next <= leftover.Length then old(state) else Error
    {
      assert leftover[..leftoverUsed] + chunk[i..] == chunk[i..];
      if leftover.Length < next {
        state := Error;
        return;
      }
      Keep(chunk, i, |chunk| - i);
      assert leftover[..leftoverUsed] == chunk[i..];
    }

    /** With nothing left over, decodes the next block straight out of the chunk. */
    method FromChunk(ghost o: View<S>, chunk: seq<Byte>, i: int, next: nat) returns (ok: bool, j: int)
      requires |o.core.out| <= output.Length && Sound(decoder) && output != leftover && state != Error
      requires Midway(o, chunk, i) && i < |chunk| && leftoverUsed == 0
      requires 0 < next == decoder.next(dctx) <= |chunk| - i
      modifies this`state, this`dctx, this`expectedLeft, this`outputUsed, this`calls, output
      ensures if ok then Midway(o, chunk, j) && i < j else Over(o, chunk)
      ensures state == if ok then old(state) else Error
    {
      j := i + next;
      assert leftover[..leftoverUsed] + chunk[i..] == chunk[i..j] + chunk[j..];
      ok := Decode(o, chunk, j, chunk[i..j]);
      if ok {
        NothingLeftOver(o, chunk, j);
      }
    }

    /** Decodes the block that is left over, which is complete: nothing behind it has to be moved up. */
    method FromLeftover(ghost o: View<S>, ghost chunk: seq<Byte>, ghost j: int, next: nat) returns (ok: bool)
      requires |o.core.out| <= output.Length && Sound(decoder) && output != leftover && state != Error
      requires 0 <= j <= |chunk| && outputUsed <= output.Length && state == o.state
      requires 0 < next == leftoverUsed == decoder.next(dctx) && leftoverUsed <= leftover.Length
      requires expectedLeft == (o.expected - (outputUsed - |o.core.out|)) % WORD64
      requires Feed(decoder, output.Length, o.core, o.left + chunk)
        == Feed(decoder, output.Length, NowCore(), leftover[..leftoverUsed] + chunk[j..])
      modifies this`state, this`dctx, this`expectedLeft, this`outputUsed, this`leftoverUsed, this`calls, output
      ensures if ok then Midway(o, chunk, j) else Over(o, chunk)
      ensures state == if ok then old(state) else Error
    {
      ok := Decode(o, chunk, j, leftover[..leftoverUsed]);
      if !ok {
        FailedIsOver(o, chunk);
        return;
      }
      leftoverUsed := leftoverUsed - next;
      NothingLeftOver(o, chunk, j);
    }

    /** Copies what is missing of the block that is left over, as far as the chunk goes. */
    method Complete(ghost o: View<S>, chunk: seq<Byte>, i: int, next: nat) returns (j: int)
      requires |o.core.out| <= output.Length && Sound(decoder) && output != leftover
      requires Midway(o, chunk, i) && i < |chunk| && leftoverUsed > 0 && next == decoder.next(dctx)
      modifies this`leftoverUsed, leftover
      ensures i < j <= |chunk| && leftoverUsed <= next && (leftoverUsed < next ==> j == |chunk|)
      ensures Feed(decoder, output.Length, o.core, o.left + chunk)
        == Feed(decoder, output.Length, NowCore(), leftover[..leftoverUsed] + chunk[j..])
    {
      var append := if next - leftoverUsed < |chunk| - i then next - leftoverUsed else |chunk| - i;
      j := i + append;
      assert chunk[i..] == chunk[i..j] + chunk[j..];
      ghost var before := leftover[..leftoverUsed];
      Keep(chunk, i, append);
      assert before + chunk[i..] == leftover[..leftoverUsed] + chunk[j..];
    }

    /** Goes on with the block that is left over. */
    method WithLeftover(ghost o: View<S>, chunk: seq<Byte>, i: int, next: nat) returns (ok: bool, j: int)
      requires |o.core.out| <= output.Length && Sound(decoder) && output != leftover && state != Error
      requires Midway(o, chunk, i) && i < |chunk| && leftoverUsed > 0 && next == decoder.next(dctx)
      modifies this`state, this`dctx, this`expectedLeft, this`outputUsed, this`leftoverUsed, this`calls,
        output, leftover
      ensures if ok then Midway(o, chunk, j) && i < j else Over(o, chunk)
      ensures state == if ok then old(state) else Error
    {
      j := Complete(o, chunk, i, next);
      if leftoverUsed < next {
        return true, j;
      }
      ok := FromLeftover(o, chunk, j, next);
    }

    /** The decoder wants no more: the frame has ended. */
    method Finish(ghost o: View<S>, ghost chunk: seq<Byte>, ghost i: int)
      requires |o.core.out| <= output.Length && Sound(decoder) && output != leftover && state != Error
      requires Midway(o, chunk, i) && i < |chunk| && decoder.next(dctx) == 0
      modifies this`state
      ensures Over(o, chunk) && state == Finished
    {
      state := Finished;
    }

    lemma EndIsOver(o: View<S>, chunk: seq<Byte>)
      requires |o.core.out| <= output.Length && Sound(decoder)
      requires Midway(o, chunk, |chunk|) && state in {Streaming, Finished}
      requires state == Finished ==> chunk == [] && decoder.next(dctx) == 0
      ensures Over(o, chunk)
    {
      assert leftover[..leftoverUsed] + chunk[|chunk|..] == leftover[..leftoverUsed];
    }

    /** The streaming loop over one chunk. */
    method Stream(ghost o: View<S>, chunk: seq<Byte>) returns (r: Answer)
      requires |o.core.out| <= output.Length && Sound(decoder) && output != leftover
      requires state in {Streaming, Finished} && Midway(o, chunk, 0)
      requires state == Finished ==> decoder.next(dctx) == 0
      modifies this`state, this`dctx, this`expectedLeft, this`outputUsed, this`leftoverUsed, this`calls,
        output, leftover
      ensures Over(o, chunk)
      ensures r == if state == Error then InvalidStreamState
                   else if state == Finished && chunk != [] then Left(0)
                   else Left(expectedLeft)
    {
      var i := 0;
      while i < |chunk|
        invariant Midway(o, chunk, i) && state in {Streaming, Finished}
        invariant state == Finished ==> i == 0 && decoder.next(dctx) == 0
      {
        var next := decoder.next(dctx);
        if next == 0 {
          Finish(o, chunk, i);
          return Left(0);
        }
        if leftoverUsed == 0 && |chunk| - i < next {
          KeepRest(o, chunk, i, next);
          return if state == Error then InvalidStreamState else Left(expectedLeft);
        }
        var ok := true;
        if leftoverUsed == 0 {
          ok, i := FromChunk(o, chunk, i, next);
        } else {
          ok, i := WithLeftover(o, chunk, i, next);
        }
        if !ok {
          return InvalidStreamState;
        }
      }
      EndIsOver(o, chunk);
      return Left(expectedLeft);
    }

    /** One call: works through a chunk of the stream. */
    method StreamDecompress(chunk: seq<Byte>) returns (r: Answer)
      requires Valid() && state != Error
      modifies this`state, this`dctx, this`expectedLeft, this`outputUsed, this`leftoverUsed, this`calls,
        output, leftover
      ensures Valid()
      ensures Now() == Fed(decoder, output.Length, leftover.Length, old(Now()), chunk)
      ensures r == if state == Error then InvalidStreamState
                   else if state == Begin then ZstdError
                   else if state == Finished && chunk != [] then Left(0)
                   else Left(expectedLeft)
    {
      FedReady(decoder, output.Length, leftover.Length, Now(), chunk);
      var ok, a := Open(chunk);
      if !ok {
        return a;
      }
      assert chunk[0..] == chunk;
      r := Stream(Now(), chunk);
    }
  }
}
