/** Decompression of a stream that arrives in chunks: the block decoder, what a whole stream decodes to,
    and what is left over between chunks. */
module ZstdStream {
  import opened Words

  datatype Step<S> = DecodeError | Decoded(state: S, bytes: seq<Byte>)

  /** A block decoder: what it makes of a frame header, the state it begins in, how long a block it wants
      next, and what it makes of a block and the room that is left for output. */
  datatype Decoder<!S> = Decoder(
    contentSize: seq<Byte> -> Option<nat>,
    begin: Option<S>,
    next: S -> nat,
    decode: (S, nat, seq<Byte>) -> Step<S>)

  /** A decoder never writes past the room it is given. */
  ghost predicate Sound<S(!new)>(d: Decoder<S>) {
    forall s, room, block :: d.decode(s, room, block).Decoded? ==> |d.decode(s, room, block).bytes| <= room
  }

  /** A call of the decoder: the room it had and the block it was given. */
  datatype Call = Call(room: nat, block: seq<Byte>)

  /** The state of the decoder, the output so far, and the calls that led there. */
  datatype Core<S> = Core(dctx: S, out: seq<Byte>, calls: seq<Call>)

  datatype Outcome<S> = Waiting(core: Core<S>, rest: seq<Byte>) | Done(core: Core<S>) | Failed(core: Core<S>)

  /** Decodes data that is all there, block by block, until it runs out, the frame ends or a block fails. */
  ghost function Feed<S(!new)>(d: Decoder<S>, size: nat, core: Core<S>, data: seq<Byte>): Outcome<S>
    requires Sound(d) && |core.out| <= size
    decreases |data|
  {
    var n := d.next(core.dctx);
    if data == [] then Waiting(core, data)
    else if n == 0 then Done(core)
    else if |data| < n then Waiting(core, data)
    else
      var room := size - |core.out|;
      var calls := core.calls + [Call(room, data[..n])];
      match d.decode(core.dctx, room, data[..n])
      case DecodeError => Failed(core.(calls := calls))
      case Decoded(s, bytes) => Feed(d, size, Core(s, core.out + bytes, calls), data[n..])
  }

  /** One step of `Feed`, for a block that is decoded. */
  lemma FeedStep<S(!new)>(d: Decoder<S>, size: nat, core: Core<S>, data: seq<Byte>, block: seq<Byte>, after: seq<Byte>)
    requires Sound(d) && |core.out| <= size && data == block + after && 0 < d.next(core.dctx) == |block|
    ensures var room := size - |core.out|;
      var calls := core.calls + [Call(room, block)];
      var r := d.decode(core.dctx, room, block);
      && (r.DecodeError? ==> Feed(d, size, core, data) == Failed(core.(calls := calls)))
      && (r.Decoded? ==>
           Feed(d, size, core, data) == Feed(d, size, Core(r.state, core.out + r.bytes, calls), after))
  {
    assert data[..|block|] == block && data[|block|..] == after;
  }

  /** Feeding `b` after `a` has run out is feeding both at once, with what was left of `a` in front. */
  lemma {:induction false} FeedSplit<S(!new)>(d: Decoder<S>, size: nat, core: Core<S>, a: seq<Byte>, b: seq<Byte>)
    requires Sound(d) && |core.out| <= size
    ensures var f := Feed(d, size, core, a);
      && |f.core.out| <= size
      && Feed(d, size, core, a + b) == if f.Waiting? then Feed(d, size, f.core, f.rest + b) else f
    decreases |a|
  {
    var n := d.next(core.dctx);
    if a == [] {
      assert a + b == b;
    } else if 0 < n <= |a| {
      assert a == a[..n] + a[n..] && a + b == a[..n] + (a[n..] + b);
      FeedStep(d, size, core, a, a[..n], a[n..]);
      FeedStep(d, size, core, a + b, a[..n], a[n..] + b);
      var room := size - |core.out|;
      var r := d.decode(core.dctx, room, a[..n]);
      if r.Decoded? {
        FeedSplit(d, size, Core(r.state, core.out + r.bytes, core.calls + [Call(room, a[..n])]), a[n..], b);
      }
    }
  }

  // ---------------------------------------------------------------------------------------------
  // Calls of the stream

  datatype State = Begin | Streaming | Finished | Error

  /** The stream context between calls. */
  datatype View<S> = View(state: State, core: Core<S>, left: seq<Byte>, expected: int)

  /** The context after data has been fed to it, with room for `room` bytes to be left over. */
  function Settled<S>(d: Decoder<S>, room: nat, v: View<S>, f: Outcome<S>): View<S> {
    var expected := (v.expected - (|f.core.out| - |v.core.out|)) % WORD64;
    match f
    case Waiting(core, rest) =>
      if rest != [] && room < d.next(core.dctx) then View(Error, core, [], expected)
      else View(v.state, core, rest, expected)
    case Done(core) => View(Finished, core, [], expected)
    case Failed(core) => View(Error, core, [], expected)
  }

  /** The context after the frame header has been read, if it had not been read before. */
  function Opened<S>(d: Decoder<S>, size: nat, v: View<S>, chunk: seq<Byte>): View<S> {
    if v.state != Begin then v
    else
      match d.contentSize(chunk)
      case None => v.(state := Error)
      case Some(n) =>
        if size < n then v.(state := Error)
        else
          match d.begin
          case None => v.(expected := n)
          case Some(s) => v.(state := Streaming, core := v.core.(dctx := s), expected := n)
  }

  /** The context after one call. */
  ghost function Fed<S(!new)>(d: Decoder<S>, size: nat, room: nat, v: View<S>, chunk: seq<Byte>): View<S>
    requires Sound(d) && |v.core.out| <= size
  {
    var o := Opened(d, size, v, chunk);
    if o.state in {Begin, Error} then o
    else Settled(d, room, o, Feed(d, size, o.core, o.left + chunk))
  }

  /** What holds of a context between calls: what is left over is less than the next block, for which
      there is room, and the end of a frame is where the decoder wants no more. */
  predicate Ready<S>(d: Decoder<S>, size: nat, room: nat, v: View<S>) {
    && |v.core.out| <= size
    && (v.left != [] ==> v.state == Streaming && |v.left| < d.next(v.core.dctx) <= room)
    && (v.state == Finished ==> d.next(v.core.dctx) == 0)
    && 0 <= v.expected < WORD64
  }

  lemma {:induction false} FeedReady<S(!new)>(d: Decoder<S>, size: nat, core: Core<S>, data: seq<Byte>)
    requires Sound(d) && |core.out| <= size
    ensures var f := Feed(d, size, core, data);
      && |core.out| <= |f.core.out| <= size
      && (f.Waiting? && f.rest != [] ==> |f.rest| < d.next(f.core.dctx))
      && (f.Done? ==> d.next(f.core.dctx) == 0)
      && (d.next(core.dctx) == 0 ==> f == if data == [] then Waiting(core, []) else Done(core))
    decreases |data|
  {
    var n := d.next(core.dctx);
    if data != [] && 0 < n <= |data| {
      var room := size - |core.out|;
      var r := d.decode(core.dctx, room, data[..n]);
      if r.Decoded? {
        FeedReady(d, size, Core(r.state, core.out + r.bytes, core.calls + [Call(room, data[..n])]), data[n..]);
      }
    }
  }

  /** A call keeps a context ready for the next one. */
  lemma FedReady<S(!new)>(d: Decoder<S>, size: nat, room: nat, v: View<S>, chunk: seq<Byte>)
    requires Sound(d) && Ready(d, size, room, v) && size < WORD64
    ensures Ready(d, size, room, Fed(d, size, room, v, chunk))
  {
    var o := Opened(d, size, v, chunk);
    FeedReady(d, size, o.core, o.left + chunk);
  }

  // ---------------------------------------------------------------------------------------------
  // Whole streams

  function Joined(chunks: seq<seq<Byte>>): seq<Byte> {
    if chunks == [] then [] else chunks[0] + Joined(chunks[1..])
  }

  /** The context after a stream has been fed chunk by chunk, up to the first error. */
  ghost function Run<S(!new)>(d: Decoder<S>, size: nat, room: nat, v: View<S>, chunks: seq<seq<Byte>>): View<S>
    requires Sound(d) && Ready(d, size, room, v) && size < WORD64
    decreases |chunks|
  {
    if chunks == [] || v.state == Error then v
    else
      FedReady(d, size, room, v, chunks[0]);
      Run(d, size, room, Fed(d, size, room, v, chunks[0]), chunks[1..])
  }

  /** There is room to keep back any block that the decoder may ask for. */
  ghost predicate Roomy<S(!new)>(d: Decoder<S>, room: nat) {
    forall s :: d.next(s) <= room
  }

  lemma SubtractTwice(e: int, x: int, y: int)
    ensures ((e - x) % WORD64 - y) % WORD64 == (e - (x + y)) % WORD64
  {
    assert (e - x) % WORD64 == e - x - WORD64 * ((e - x) / WORD64);
  }

  /** Settling in two steps is settling at once. */
  lemma SettledTwice<S>(d: Decoder<S>, room: nat, v: View<S>, core: Core<S>, rest: seq<Byte>, g: Outcome<S>)
    requires v.state == Streaming && (rest == [] || d.next(core.dctx) <= room)
    ensures Settled(d, room, Settled(d, room, v, Waiting(core, rest)), g) == Settled(d, room, v, g)
  {
    SubtractTwice(v.expected, |core.out| - |v.core.out|, |g.core.out| - |core.out|);
  }

  /** Once a frame has ended, more data changes nothing. */
  lemma FinishedStays<S(!new)>(d: Decoder<S>, size: nat, room: nat, v: View<S>, chunk: seq<Byte>)
    requires Sound(d) && Ready(d, size, room, v) && v.state == Finished
    ensures Fed(d, size, room, v, chunk) == v
  {
    FeedReady(d, size, v.core, v.left + chunk);
  }

  /** Two calls in a row leave the context as one call with both chunks does. */
  lemma FedTwice<S(!new)>(d: Decoder<S>, size: nat, room: nat, v: View<S>, a: seq<Byte>, b: seq<Byte>)
    requires Sound(d) && Roomy(d, room) && Ready(d, size, room, v) && v.state == Streaming && size < WORD64
    ensures var w := Fed(d, size, room, v, a);
      |w.core.out| <= size && Fed(d, size, room, v, a + b) == if w.state == Error then w else Fed(d, size, room, w, b)
  {
    FedReady(d, size, room, v, a);
    FeedSplit(d, size, v.core, v.left + a, b);
    assert v.left + (a + b) == v.left + a + b;
    var f := Feed(d, size, v.core, v.left + a);
    if f.Waiting? {
      SettledTwice(d, room, v, f.core, f.rest, Feed(d, size, f.core, f.rest + b));
    } else if f.Done? {
      FinishedStays(d, size, room, Fed(d, size, room, v, a), b);
    }
  }

  /** However a stream is cut into chunks, feeding it chunk by chunk makes the same decoder calls, writes
      the same output and keeps the same bytes back as feeding it in one call. */
  lemma {:induction false} ChunkIndependence<S(!new)>(d: Decoder<S>, size: nat, room: nat, v: View<S>,
                                                      chunks: seq<seq<Byte>>)
    requires Sound(d) && Roomy(d, room) && Ready(d, size, room, v) && size < WORD64
    requires v.state in {Streaming, Finished}
    ensures Run(d, size, room, v, chunks) == Fed(d, size, room, v, Joined(chunks))
    decreases |chunks|
  {
    if chunks == [] {
      FeedReady(d, size, v.core, v.left);
      assert v.left + [] == v.left;
    } else {
      var w := Fed(d, size, room, v, chunks[0]);
      FedReady(d, size, room, v, chunks[0]);
      if v.state == Finished {
        FinishedStays(d, size, room, v, chunks[0]);
        FinishedStays(d, size, room, v, Joined(chunks));
        FinishedStays(d, size, room, v, Joined(chunks[1..]));
      } else {
        FedTwice(d, size, room, v, chunks[0], Joined(chunks[1..]));
      }
      if w.state != Error {
        ChunkIndependence(d, size, room, w, chunks[1..]);
      }
    }
  }

  /** The header cannot be read, or declares more than there is room for. */
  predicate Unreadable(size: nat, declared: Option<nat>) {
    declared == None || size < declared.value
  }

  /** A decoder that has failed was called at least once. */
  lemma {:induction false} FailedWasCalled<S(!new)>(d: Decoder<S>, size: nat, core: Core<S>, data: seq<Byte>)
    requires Sound(d) && |core.out| <= size
    ensures var f := Feed(d, size, core, data);
      |core.calls| <= |f.core.calls| && (f.Failed? ==> |core.calls| < |f.core.calls|)
    decreases |data|
  {
    var n := d.next(core.dctx);
    if data != [] && 0 < n <= |data| {
      var room := size - |core.out|;
      var r := d.decode(core.dctx, room, data[..n]);
      if r.Decoded? {
        FailedWasCalled(d, size, Core(r.state, core.out + r.bytes, core.calls + [Call(room, data[..n])]), data[n..]);
      }
    }
  }

  lemma SameModulo(a: int, b: int, x: int)
    requires 0 <= a < WORD64 && 0 <= b < WORD64 && (a - x) % WORD64 == (b - x) % WORD64
    ensures a == b
  {
    var q, p := (a - x) / WORD64, (b - x) / WORD64;
    assert a - b == WORD64 * (q - p);
  }

  /** The context after all data has been fed at once, if `header` is read as the frame header. */
  ghost function FromHeader<S(!new)>(d: Decoder<S>, size: nat, room: nat, v: View<S>, header: seq<Byte>,
                                     data: seq<Byte>): View<S>
    requires Sound(d) && |v.core.out| <= size
  {
    var o := Opened(d, size, v, header);
    if o.state == Error then o else Settled(d, room, o, Feed(d, size, o.core, data))
  }

  /** The context after a stream from its beginning is that of the header in the first chunk, and of all data. */
  lemma RunFromBegin<S(!new)>(d: Decoder<S>, size: nat, room: nat, v: View<S>, chunks: seq<seq<Byte>>)
    requires Sound(d) && Roomy(d, room) && Ready(d, size, room, v) && size < WORD64
    requires v.state == Begin && d.begin.Some? && chunks != []
    ensures Run(d, size, room, v, chunks) == FromHeader(d, size, room, v, chunks[0], Joined(chunks))
  {
    var o := Opened(d, size, v, chunks[0]);
    FedReady(d, size, room, v, chunks[0]);
    assert o.left + Joined(chunks) == Joined(chunks);
    if o.state == Streaming {
      ChunkIndependence(d, size, room, o, chunks);
    }
  }

  /** A header that can be read never leads to the context that one leads to which cannot. */
  lemma ReadableHeader<S(!new)>(d: Decoder<S>, size: nat, room: nat, v: View<S>, header: seq<Byte>, data: seq<Byte>)
    requires Sound(d) && Roomy(d, room) && Ready(d, size, room, v) && size < WORD64
    requires v.state == Begin && d.begin.Some? && !Unreadable(size, d.contentSize(header))
    ensures FromHeader(d, size, room, v, header, data) != v.(state := Error)
  {
    FailedWasCalled(d, size, Opened(d, size, v, header).core, data);
  }

  /** Two headers that can be read lead to the same context exactly if they declare the same size. */
  lemma ReadableHeaders<S(!new)>(d: Decoder<S>, size: nat, room: nat, v: View<S>, a: seq<Byte>, b: seq<Byte>,
                                 data: seq<Byte>)
    requires Sound(d) && Roomy(d, room) && Ready(d, size, room, v) && size < WORD64
    requires v.state == Begin && d.begin.Some?
    requires !Unreadable(size, d.contentSize(a)) && !Unreadable(size, d.contentSize(b))
    ensures FromHeader(d, size, room, v, a, data) == FromHeader(d, size, room, v, b, data) <==>
            d.contentSize(a) == d.contentSize(b)
  {
    var o, p := Opened(d, size, v, a), Opened(d, size, v, b);
    var x := |Feed(d, size, o.core, data).core.out| - |v.core.out|;
    if (o.expected - x) % WORD64 == (p.expected - x) % WORD64 {
      SameModulo(o.expected, p.expected, x);
    }
  }

  /** Two headers lead to the same context exactly if they read the same, or neither can be read. */
  lemma SameHeader<S(!new)>(d: Decoder<S>, size: nat, room: nat, v: View<S>, a: seq<Byte>, b: seq<Byte>,
                            data: seq<Byte>)
    requires Sound(d) && Roomy(d, room) && Ready(d, size, room, v) && size < WORD64
    requires v.state == Begin && d.begin.Some?
    ensures FromHeader(d, size, room, v, a, data) == FromHeader(d, size, room, v, b, data) <==>
      (d.contentSize(a) == d.contentSize(b) ||
        (Unreadable(size, d.contentSize(a)) && Unreadable(size, d.contentSize(b))))
  {
    if Unreadable(size, d.contentSize(a)) {
      if !Unreadable(size, d.contentSize(b)) {
        ReadableHeader(d, size, room, v, b, data);
      }
    } else if Unreadable(size, d.contentSize(b)) {
      ReadableHeader(d, size, room, v, a, data);
    } else {
      ReadableHeaders(d, size, room, v, a, b, data);
    }
  }

  /** From the first call on, feeding chunk by chunk leaves the context as one call does exactly if the first
      chunk reads as a header like the whole stream, or neither can be read. */
  lemma ChunkIndependenceFromBegin<S(!new)>(d: Decoder<S>, size: nat, room: nat, v: View<S>, chunks: seq<seq<Byte>>)
    requires Sound(d) && Roomy(d, room) && Ready(d, size, room, v) && size < WORD64
    requires v.state == Begin && d.begin.Some? && chunks != []
    ensures var first, whole := d.contentSize(chunks[0]), d.contentSize(Joined(chunks));
      Run(d, size, room, v, chunks) == Fed(d, size, room, v, Joined(chunks)) <==>
      (first == whole || (Unreadable(size, first) && Unreadable(size, whole)))
  {
    var o := Opened(d, size, v, Joined(chunks));
    assert o.left + Joined(chunks) == Joined(chunks);
    RunFromBegin(d, size, room, v, chunks);
    SameHeader(d, size, room, v, chunks[0], Joined(chunks), Joined(chunks));
  }

  /** A decoder of empty frames whose header takes two bytes. */
  function EmptyFrames(): Decoder<int> {
    Decoder(chunk => if |chunk| < 2 then None else Some(0), Some(0), s => 0, (s, room, block) => DecodeError)
  }

  /** A header that is cut after its first byte makes an error of a stream that one call decodes. */
  lemma CutHeaderExample()
    ensures var d, v := EmptyFrames(), View(Begin, Core(0, [], []), [], 0);
      && Sound(d) && Roomy(d, 0) && Ready(d, 0, 0, v)
      && Run(d, 0, 0, v, [[1], [2]]).state == Error
      && Fed(d, 0, 0, v, Joined([[1], [2]])).state == Finished
  {
    assert [[1], [2]][1..] == [[2]] && [[2]][1..] == [];
    assert Joined([[2]]) == [2] + Joined([]);
    assert Joined([[1], [2]]) == [1] + [2];
  }

  // ---------------------------------------------------------------------------------------------
  // What is never lost

  function Blocks(calls: seq<Call>): seq<Byte> {
    if calls == [] then [] else Blocks(calls[..|calls| - 1]) + calls[|calls| - 1].block
  }

  /** Every byte is given to the decoder once and in order, up to the rest that is kept back. */
  lemma {:induction false} BytesConserved<S(!new)>(d: Decoder<S>, size: nat, core: Core<S>, data: seq<Byte>)
    requires Sound(d) && |core.out| <= size
    ensures var f := Feed(d, size, core, data);
      && Blocks(f.core.calls) <= Blocks(core.calls) + data
      && (f.Waiting? ==> Blocks(f.core.calls) + f.rest == Blocks(core.calls) + data)
    decreases |data|
  {
    var n := d.next(core.dctx);
    if data != [] && 0 < n <= |data| {
      var room := size - |core.out|;
      var calls := core.calls + [Call(room, data[..n])];
      assert calls[..|calls| - 1] == core.calls && data == data[..n] + data[n..];
      assert Blocks(calls) == Blocks(core.calls) + data[..n];
      assert Blocks(calls) + data[n..] == Blocks(core.calls) + data;
      var r := d.decode(core.dctx, room, data[..n]);
      if r.Decoded? {
        BytesConserved(d, size, Core(r.state, core.out + r.bytes, calls), data[n..]);
      }
    }
  }

  // ---------------------------------------------------------------------------------------------
  // What the decoder is called with

  /** The calls take the decoder from state to state: each is given a block of the length that the decoder
      wants in its state, with the room that the output so far leaves, and what it writes follows that. */
  ghost predicate Traced<S(!new)>(d: Decoder<S>, size: nat, calls: seq<Call>, states: seq<S>, outs: seq<seq<Byte>>) {
    && |states| == |outs| == |calls| + 1
    && (forall k :: 0 <= k < |calls| ==> Takes(d, size, calls[k], states[k], outs[k], states[k + 1], outs[k + 1]))
  }

  ghost predicate Takes<S(!new)>(d: Decoder<S>, size: nat, call: Call, s: S, out: seq<Byte>, t: S, out': seq<Byte>) {
    && Wanted(d, size, call, s, out)
    && out <= out' && d.decode(s, call.room, call.block) == Decoded(t, out'[|out|..])
  }

  ghost predicate Wanted<S(!new)>(d: Decoder<S>, size: nat, call: Call, s: S, out: seq<Byte>) {
    0 < |call.block| == d.next(s) && call.room == size - |out|
  }

  /** Calls that take the decoder from `core` to `core'`, unless the last one fails. */
  ghost predicate Leads<S(!new)>(d: Decoder<S>, size: nat, core: Core<S>, calls: seq<Call>, failed: bool,
                                 core': Core<S>, states: seq<S>, outs: seq<seq<Byte>>)
  {
    var n := if failed then |calls| - 1 else |calls|;
    && core'.calls == core.calls + calls && 0 <= n
    && Traced(d, size, calls[..n], states, outs)
    && states[0] == core.dctx && outs[0] == core.out && states[n] == core'.dctx && outs[n] == core'.out
    && (failed ==> Wanted(d, size, calls[n], states[n], outs[n])
                   && d.decode(states[n], calls[n].room, calls[n].block).DecodeError?)
  }

  lemma LeadsFirst<S(!new)>(d: Decoder<S>, size: nat, core: Core<S>, call: Call, mid: Core<S>, calls: seq<Call>,
                            failed: bool, core': Core<S>, states: seq<S>, outs: seq<seq<Byte>>)
    requires Takes(d, size, call, core.dctx, core.out, mid.dctx, mid.out) && mid.calls == core.calls + [call]
    requires Leads(d, size, mid, calls, failed, core', states, outs)
    ensures Leads(d, size, core, [call] + calls, failed, core', [core.dctx] + states, [core.out] + outs)
  {
    var n := if failed then |calls| - 1 else |calls|;
    var all, all', outs' := [call] + calls, [core.dctx] + states, [core.out] + outs;
    assert core'.calls == core.calls + all;
    assert all[..n + 1] == [call] + calls[..n];
    forall k | 0 <= k < n + 1 ensures Takes(d, size, all[..n + 1][k], all'[k], outs'[k], all'[k + 1], outs'[k + 1]) {
      assert k > 0 ==> all[..n + 1][k] == calls[..n][k - 1];
    }
  }

  /** Feeding data calls the decoder with one block after the other, from the state it is in on. */
  lemma {:induction false} FeedTraced<S(!new)>(d: Decoder<S>, size: nat, core: Core<S>, data: seq<Byte>)
    returns (calls: seq<Call>, states: seq<S>, outs: seq<seq<Byte>>)
    requires Sound(d) && |core.out| <= size
    ensures var f := Feed(d, size, core, data); Leads(d, size, core, calls, f.Failed?, f.core, states, outs)
    decreases |data|
  {
    calls, states, outs := [], [core.dctx], [core.out];
    var n := d.next(core.dctx);
    if data != [] && 0 < n <= |data| {
      var call := Call(size - |core.out|, data[..n]);
      match d.decode(core.dctx, call.room, call.block)
      case DecodeError =>
        calls := [call];
        assert calls[..0] == [];
      case Decoded(s, bytes) =>
        var mid := Core(s, core.out + bytes, core.calls + [call]);
        calls, states, outs := FeedTraced(d, size, mid, data[n..]);
        assert mid.out[|core.out|..] == bytes;
        var f := Feed(d, size, mid, data[n..]);
        LeadsFirst(d, size, core, call, mid, calls, f.Failed?, f.core, states, outs);
        calls, states, outs := [call] + calls, [core.dctx] + states, [core.out] + outs;
    }
  }

  lemma {:induction false} BlocksJoined(a: seq<Call>, b: seq<Call>)
    ensures Blocks(a + b) == Blocks(a) + Blocks(b)
    decreases |b|
  {
    if b == [] {
      assert a + b == a;
    } else {
      var front := b[..|b| - 1];
      assert (a + b)[..|a + b| - 1] == a + front;
      BlocksJoined(a, front);
    }
  }

  /** Feeding data from the state of `core` takes block after block out of it, up to a rest: none of a block
      failed unless the last, a frame ends where data is left but the decoder wants none, and what it waits with
      is too short for the next block. */
  lemma FeedTakes<S(!new)>(d: Decoder<S>, size: nat, core: Core<S>, data: seq<Byte>)
    returns (calls: seq<Call>, states: seq<S>, outs: seq<seq<Byte>>, rest: seq<Byte>)
    requires Sound(d) && |core.out| <= size
    ensures var f := Feed(d, size, core, data);
      && Leads(d, size, core, calls, f.Failed?, f.core, states, outs)
      && Blocks(calls) + rest == data
      && (f.Done? ==> rest != [] && d.next(f.core.dctx) == 0)
      && (f.Waiting? ==> f.rest == rest && (rest != [] ==> |rest| < d.next(f.core.dctx)))
  {
    var f := Feed(d, size, core, data);
    calls, states, outs := FeedTraced(d, size, core, data);
    BytesConserved(d, size, core, data);
    FeedReady(d, size, core, data);
    BlocksJoined(core.calls, calls);
    DoneLeavesData(d, size, core, data);
    CommonPrefix(Blocks(core.calls), Blocks(calls), data);
    rest := data[|Blocks(calls)|..];
    if f.Waiting? {
      assert Blocks(core.calls) + Blocks(calls) + f.rest == Blocks(core.calls) + (Blocks(calls) + f.rest);
      CommonPrefix(Blocks(core.calls), Blocks(calls) + f.rest, data);
    }
  }

  /** What one call makes of a context that is streaming: the decoder takes block after block out of what was
      left over and the chunk. It ends in an error exactly if the last block failed, or if what is left is the
      start of a block for which there is no room; it ends finished exactly if data is left where the decoder
      wants none; else all that is left is kept back. */
  lemma CallTraced<S(!new)>(d: Decoder<S>, size: nat, room: nat, v: View<S>, chunk: seq<Byte>)
    returns (calls: seq<Call>, states: seq<S>, outs: seq<seq<Byte>>, rest: seq<Byte>, failed: bool)
    requires Sound(d) && Ready(d, size, room, v) && size < WORD64 && v.state == Streaming
    ensures var w := Fed(d, size, room, v, chunk);
      && Leads(d, size, v.core, calls, failed, w.core, states, outs) && Blocks(calls) + rest == v.left + chunk
      && w.expected == (v.expected - (|w.core.out| - |v.core.out|)) % WORD64
      && var next := d.next(w.core.dctx);
         && (w.state == Error <==> failed || (0 < |rest| < next && room < next))
         && (w.state == Finished <==> !failed && rest != [] && next == 0)
         && (w.state == Streaming <==> !failed && (rest == [] || (|rest| < next <= room)))
         && w.left == if w.state == Streaming then rest else []
  {
    calls, states, outs, rest := FeedTakes(d, size, v.core, v.left + chunk);
    failed := Feed(d, size, v.core, v.left + chunk).Failed?;
  }

  /** What a stream comes to from its first call on, whatever its chunks and whatever state the decoder was left
      in before: from the state it begins in, the decoder takes block after block out of the stream. The frame
      has ended if data is left where the decoder wants no more; else what is left is too short for the
      next block. */
  lemma StreamTraced<S(!new)>(d: Decoder<S>, size: nat, room: nat, v: View<S>, chunks: seq<seq<Byte>>)
    returns (calls: seq<Call>, states: seq<S>, outs: seq<seq<Byte>>, rest: seq<Byte>)
    requires Sound(d) && Roomy(d, room) && Ready(d, size, room, v) && size < WORD64
    requires v.state == Begin && chunks != []
    requires d.begin.Some? && d.contentSize(chunks[0]).Some? && d.contentSize(chunks[0]).value <= size
    ensures var w := Run(d, size, room, v, chunks);
      && Leads(d, size, v.core.(dctx := d.begin.value), calls, w.state == Error, w.core, states, outs)
      && Blocks(calls) + rest == Joined(chunks)
      && w.expected == (d.contentSize(chunks[0]).value - (|w.core.out| - |v.core.out|)) % WORD64
      && w.state != Begin && w.left == (if w.state == Streaming then rest else [])
      && (w.state == Finished ==> rest != [] && d.next(w.core.dctx) == 0)
      && (w.state == Streaming ==> rest == [] || |rest| < d.next(w.core.dctx))
  {
    RunFromBegin(d, size, room, v, chunks);
    calls, states, outs, rest := FeedTakes(d, size, v.core.(dctx := d.begin.value), Joined(chunks));
  }

  lemma CommonPrefix(a: seq<Byte>, b: seq<Byte>, c: seq<Byte>)
    requires a + b <= a + c
    ensures b <= c && (a + b == a + c ==> b == c)
  {
    forall k | 0 <= k < |b| ensures b[k] == c[k] {
      assert (a + b)[|a| + k] == (a + c)[|a| + k];
    }
  }

  /** A frame ends only where data is left. */
  lemma {:induction false} DoneLeavesData<S(!new)>(d: Decoder<S>, size: nat, core: Core<S>, data: seq<Byte>)
    requires Sound(d) && |core.out| <= size
    ensures var f := Feed(d, size, core, data); f.Done? ==> |Blocks(f.core.calls)| < |Blocks(core.calls)| + |data|
    decreases |data|
  {
    var n := d.next(core.dctx);
    if data != [] && 0 < n <= |data| {
      var room := size - |core.out|;
      var calls := core.calls + [Call(room, data[..n])];
      assert calls[..|calls| - 1] == core.calls;
      var r := d.decode(core.dctx, room, data[..n]);
      if r.Decoded? {
        DoneLeavesData(d, size, Core(r.state, core.out + r.bytes, calls), data[n..]);
      }
    }
  }

  /** The first call, if its header can be read and the decoder begins, does not depend on what state the decoder
      was in; if the header cannot be read the context only becomes an error, and if the decoder does not begin
      only the declared size is kept. */
  lemma FirstCall<S(!new)>(d: Decoder<S>, size: nat, room: nat, v: View<S>, dctx: S, chunk: seq<Byte>)
    requires Sound(d) && |v.core.out| <= size && v.state == Begin
    ensures var declared := d.contentSize(chunk);
      && (declared == None || size < declared.value ==> Fed(d, size, room, v, chunk) == v.(state := Error))
      && (declared != None && declared.value <= size && d.begin == None ==>
            Fed(d, size, room, v, chunk) == v.(expected := declared.value))
      && (declared != None && declared.value <= size && d.begin != None ==>
            Fed(d, size, room, v, chunk) == Fed(d, size, room, v.(core := v.core.(dctx := dctx)), chunk))
  {
    var w := v.(core := v.core.(dctx := dctx));
    var o, p := Opened(d, size, v, chunk), Opened(d, size, w, chunk);
    if d.contentSize(chunk) != None && d.contentSize(chunk).value <= size && d.begin != None {
      assert o == p;
    }
  }

  // ---------------------------------------------------------------------------------------------
  // What is still expected

  /** Output written and output expected add up to the declared size of the frame, modulo 2^64. */
  ghost predicate Accounts<S>(v: View<S>, declared: int) {
    (v.expected + |v.core.out|) % WORD64 == declared % WORD64
  }

  lemma FedAccounts<S(!new)>(d: Decoder<S>, size: nat, room: nat, v: View<S>, chunk: seq<Byte>, declared: int)
    requires Sound(d) && Ready(d, size, room, v) && size < WORD64
    requires if v.state == Begin then d.contentSize(chunk) == Some(declared) && v.core.out == []
             else Accounts(v, declared)
    ensures var w := Fed(d, size, room, v, chunk);
      (v.state == Begin && size < declared) || Accounts(w, declared)
  {
    var o := Opened(d, size, v, chunk);
    var f := Feed(d, size, o.core, o.left + chunk);
    SumKept(o.expected, |o.core.out|, |f.core.out|);
  }

  lemma SumKept(e: int, before: int, after: int)
    ensures ((e - (after - before)) % WORD64 + after) % WORD64 == (e + before) % WORD64
  {
    var x := e - (after - before);
    assert x % WORD64 + after == e + before - WORD64 * (x / WORD64);
  }

  /** As long as no more has been written than was declared, the expected size is exact. */
  lemma ExpectedIsExact<S>(v: View<S>, declared: nat)
    requires Accounts(v, declared) && |v.core.out| <= declared < WORD64 && 0 <= v.expected < WORD64
    ensures v.expected == declared - |v.core.out|
  {
  }
}
