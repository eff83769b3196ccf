/** The stream reader of dltpy/dltfile.py (`DltReader`, which the module also exports
    as `DltFile`): fill-and-retry around the native reader and verbose-only iteration. */
module StreamMode {
  import opened Base
  import opened Messages

  /** A complete record the native reader found in its buffer: the record and the
      number of leading buffer bytes `consume_message` releases for it. */
  datatype Frame = Frame(rec: RawRecord, end: nat)

  /** The native reader's `read()` over its valid buffer bytes, with its accessors for
      the record found: `None` when the buffer holds no complete record yet. */
  type Framer = seq<byte> -> Option<Frame>

  /** A frame found in a buffer lies within it and releases at least one byte. */
  ghost predicate FramerOk(framer: Framer)
  {
    forall b: seq<byte> :: framer(b).Some? ==> 0 < framer(b).value.end <= |b|
  }

  /** Total number of bytes in a list of reads. */
  function TotalLength(chunks: seq<seq<byte>>): nat
  {
    if chunks == [] then 0 else |chunks[0]| + TotalLength(chunks[1..])
  }

  /** All bytes of a list of reads, in order. */
  function Flatten(chunks: seq<seq<byte>>): (r: seq<byte>)
    ensures |r| == TotalLength(chunks)
  {
    if chunks == [] then [] else chunks[0] + Flatten(chunks[1..])
  }

  /** What is left to a stream reader: bytes buffered plus bytes and reads to come. */
  function Measure(buffer: seq<byte>, input: seq<seq<byte>>): nat
  {
    |buffer| + TotalLength(input) + |input|
  }

  /** The outcome of one `get_next_message`: the record (None at end of input), the
      native buffer and the reads still to come afterwards. */
  datatype StreamStep = StreamStep(rec: Option<RawRecord>, buffer: seq<byte>, input: seq<seq<byte>>)

  /** Reference semantics of `DltReader.get_next_message`: while the buffer holds no
      complete record, append the next read; a read of zero bytes ends the stream. */
  function StreamNext(framer: Framer, buffer: seq<byte>, input: seq<seq<byte>>): (n: StreamStep)
    requires FramerOk(framer)
    decreases |input|
    ensures n.rec.Some? ==> Measure(n.buffer, n.input) < Measure(buffer, input)
    ensures n.rec.None? ==> framer(n.buffer).None?
  {
    match framer(buffer)
    case Some(f) => StreamStep(Some(f.rec), buffer[f.end..], input)
    case None =>
      if input == [] then StreamStep(None, buffer, [])
      else if input[0] == [] then StreamStep(None, buffer, input[1..])
      else StreamNext(framer, buffer + input[0], input[1..])
  }

  /** Index of the first read of zero bytes, or the number of reads. */
  function FirstEmpty(input: seq<seq<byte>>): (k: nat)
    ensures k <= |input|
    ensures k < |input| ==> input[k] == []
    ensures forall j :: 0 <= j < k ==> input[j] != []
  {
    if input == [] then 0
    else if input[0] == [] then 0
    else 1 + FirstEmpty(input[1..])
  }

  /** Appending one more read to the buffer. */
  lemma BufferAfterReads(buffer: seq<byte>, input: seq<seq<byte>>, k: nat)
    requires input != [] && k < |input|
    ensures buffer + Flatten(input[..k + 1]) == (buffer + input[0]) + Flatten(input[1..][..k])
  {
    assert input[..k + 1] == [input[0]] + input[1..][..k];
    assert Flatten(input[..k + 1]) == input[0] + Flatten(input[1..][..k]);
  }

  /** The buffer `get_next_message` looks at after `k` reads. */
  function After(buffer: seq<byte>, input: seq<seq<byte>>, k: nat): seq<byte>
    requires k <= |input|
  {
    buffer + Flatten(input[..k])
  }

  /** No buffer built before the first read of zero bytes holds a complete record. */
  ghost predicate NoFrameBeforeEnd(framer: Framer, buffer: seq<byte>, input: seq<seq<byte>>)
  {
    forall k :: 0 <= k <= FirstEmpty(input) ==> framer(After(buffer, input, k)).None?
  }

  lemma NoFrameShift(framer: Framer, buffer: seq<byte>, input: seq<seq<byte>>)
    requires framer(buffer).None? && input != [] && input[0] != []
    ensures NoFrameBeforeEnd(framer, buffer, input) <==> NoFrameBeforeEnd(framer, buffer + input[0], input[1..])
  {
    var rest := input[1..];
    assert FirstEmpty(input) == FirstEmpty(rest) + 1;
    assert After(buffer, input, 0) == buffer by { assert input[..0] == []; }
    forall k | 0 <= k <= FirstEmpty(rest)
      ensures After(buffer, input, k + 1) == After(buffer + input[0], rest, k)
    {
      BufferAfterReads(buffer, input, k);
    }
    if NoFrameBeforeEnd(framer, buffer + input[0], rest) {
      forall k | 0 <= k <= FirstEmpty(input)
        ensures framer(After(buffer, input, k)).None?
      {
        if k > 0 {
          assert After(buffer, input, k) == After(buffer + input[0], rest, k - 1);
        }
      }
    }
    if NoFrameBeforeEnd(framer, buffer, input) {
      forall k | 0 <= k <= FirstEmpty(rest)
        ensures framer(After(buffer + input[0], rest, k)).None?
      {
        assert After(buffer, input, k + 1) == After(buffer + input[0], rest, k);
      }
    }
  }

  /** `get_next_message` returns None exactly when no buffer it builds before the first
      read of zero bytes holds a complete record; the buffer then holds every byte
      read up to that point. */
  lemma {:induction false} StreamNextNone(framer: Framer, buffer: seq<byte>, input: seq<seq<byte>>)
    requires FramerOk(framer)
    ensures var n := StreamNext(framer, buffer, input);
      (n.rec.None? <==> NoFrameBeforeEnd(framer, buffer, input)) &&
      (n.rec.None? ==> n.buffer == After(buffer, input, FirstEmpty(input)))
    decreases |input|
  {
    assert After(buffer, input, 0) == buffer by { assert input[..0] == []; }
    if framer(buffer).None? && input != [] && input[0] != [] {
      var rest := input[1..];
      StreamNextNone(framer, buffer + input[0], rest);
      NoFrameShift(framer, buffer, input);
      assert FirstEmpty(input) == FirstEmpty(rest) + 1;
      BufferAfterReads(buffer, input, FirstEmpty(rest));
    }
  }

  /** After `k` reads the buffer holds a complete record, and no earlier buffer does. */
  ghost predicate FirstFramedAfter(framer: Framer, buffer: seq<byte>, input: seq<seq<byte>>, k: nat)
  {
    k <= FirstEmpty(input) && framer(After(buffer, input, k)).Some? &&
    forall j :: 0 <= j < k ==> framer(After(buffer, input, j)).None?
  }

  /** `n` is what taking the frame found after `k` reads leaves: that frame's record,
      the buffer without the frame's bytes, and the reads after the `k` taken. */
  ghost predicate TakesFrame(framer: Framer, buffer: seq<byte>, input: seq<seq<byte>>, k: nat, n: StreamStep)
    requires FramerOk(framer)
  {
    FirstFramedAfter(framer, buffer, input, k) &&
    var b := After(buffer, input, k);
    n.rec == Some(framer(b).value.rec) && n.buffer == b[framer(b).value.end..] && n.input == input[k..]
  }

  /** Taking the frame after `k` reads from the buffer grown by the first read is taking
      it after `k + 1` reads from the old buffer. */
  lemma ShiftFrame(framer: Framer, buffer: seq<byte>, input: seq<seq<byte>>, k: nat, n: StreamStep)
    requires FramerOk(framer) && framer(buffer).None? && input != [] && input[0] != []
    requires TakesFrame(framer, buffer + input[0], input[1..], k, n)
    ensures TakesFrame(framer, buffer, input, k + 1, n)
  {
    var rest := input[1..];
    assert FirstEmpty(input) == FirstEmpty(rest) + 1;
    assert After(buffer, input, 0) == buffer by { assert input[..0] == []; }
    forall j | 0 < j <= k + 1
      ensures After(buffer, input, j) == After(buffer + input[0], rest, j - 1)
    {
      BufferAfterReads(buffer, input, j - 1);
    }
    assert input[k + 1..] == rest[k..];
  }

  /** When `get_next_message` returns a record, it is the frame of the first buffer
      built before the first read of zero bytes that holds one; the bytes of that frame
      are released from that buffer, and the reads after the ones taken are left. */
  lemma {:induction false} StreamNextSome(framer: Framer, buffer: seq<byte>, input: seq<seq<byte>>)
    requires FramerOk(framer)
    ensures StreamNext(framer, buffer, input).rec.Some? ==>
      exists k: nat :: TakesFrame(framer, buffer, input, k, StreamNext(framer, buffer, input))
    decreases |input|
  {
    var n := StreamNext(framer, buffer, input);
    if framer(buffer).Some? {
      assert After(buffer, input, 0) == buffer by { assert input[..0] == []; }
      assert TakesFrame(framer, buffer, input, 0, n);
    } else if input != [] && input[0] != [] {
      StreamNextSome(framer, buffer + input[0], input[1..]);
      if n.rec.Some? {
        var k: nat :| TakesFrame(framer, buffer + input[0], input[1..], k, n);
        ShiftFrame(framer, buffer, input, k, n);
      }
    }
  }

  /** One resumption of the `__iter__` generator: `get_next_message` is called until it
      returns a verbose message, which is yielded, or None, which ends the generator;
      non-verbose messages are skipped. */
  function Resume(framer: Framer, buffer: seq<byte>, input: seq<seq<byte>>): (n: StreamStep)
    requires FramerOk(framer)
    decreases Measure(buffer, input)
    ensures n.rec.Some? ==> IsVerbose(n.rec.value) && Measure(n.buffer, n.input) < Measure(buffer, input)
    ensures n.rec.None? ==> framer(n.buffer).None?
  {
    var s := StreamNext(framer, buffer, input);
    if s.rec.None? || IsVerbose(s.rec.value) then s
    else Resume(framer, s.buffer, s.input)
  }

  /** The messages iterating over the stream yields: every record the native reader
      produces until the stream ends, except the ones that are not verbose. */
  function StreamAll(framer: Framer, buffer: seq<byte>, input: seq<seq<byte>>): (rs: seq<RawRecord>)
    requires FramerOk(framer)
    decreases Measure(buffer, input)
  {
    var n := Resume(framer, buffer, input);
    if n.rec.None? then [] else [n.rec.value] + StreamAll(framer, n.buffer, n.input)
  }

  /** Where iterating over the stream stops: the state `get_next_message` leaves when it
      returns None, after every verbose record has been yielded. */
  function StreamEnd(framer: Framer, buffer: seq<byte>, input: seq<seq<byte>>): (n: StreamStep)
    requires FramerOk(framer)
    decreases Measure(buffer, input)
    ensures n.rec.None? && framer(n.buffer).None?
  {
    var r := Resume(framer, buffer, input);
    if r.rec.None? then r else StreamEnd(framer, r.buffer, r.input)
  }

  /** One call of `get_next_message` inside `__iter__`: end of the stream, a skipped
      non-verbose message, or the next message yielded. */
  lemma StreamAllStep(framer: Framer, buffer: seq<byte>, input: seq<seq<byte>>)
    requires FramerOk(framer)
    ensures var n := StreamNext(framer, buffer, input);
      (n.rec.None? ==> StreamAll(framer, buffer, input) == []) &&
      (n.rec.Some? && !IsVerbose(n.rec.value) ==>
        StreamAll(framer, buffer, input) == StreamAll(framer, n.buffer, n.input)) &&
      (n.rec.Some? && IsVerbose(n.rec.value) ==>
        StreamAll(framer, buffer, input) == [n.rec.value] + StreamAll(framer, n.buffer, n.input))
  {
  }

  /** Every message iterating over the stream yields is verbose. */
  lemma {:induction false} StreamAllVerbose(framer: Framer, buffer: seq<byte>, input: seq<seq<byte>>)
    requires FramerOk(framer)
    ensures forall i :: 0 <= i < |StreamAll(framer, buffer, input)| ==> IsVerbose(StreamAll(framer, buffer, input)[i])
    decreases Measure(buffer, input)
  {
    var n := Resume(framer, buffer, input);
    if n.rec.Some? {
      var tail := StreamAll(framer, n.buffer, n.input);
      StreamAllVerbose(framer, n.buffer, n.input);
      assert StreamAll(framer, buffer, input) == [n.rec.value] + tail;
    }
  }

  /** Iteration from `buffer` and `input` still yields what `all` holds beyond `done`,
      and ends where `end` says. */
  ghost predicate Tracks(framer: Framer, buffer: seq<byte>, input: seq<seq<byte>>,
                         done: seq<RawRecord>, all: seq<RawRecord>, end: StreamStep)
    requires FramerOk(framer)
  {
    all == done + StreamAll(framer, buffer, input) && end == StreamEnd(framer, buffer, input)
  }

  /** One resumption of the generator either ends the iteration, having yielded all of
      `all` and stopped at `end`, or yields the next record of `all`. */
  lemma Advance(framer: Framer, buffer: seq<byte>, input: seq<seq<byte>>,
                done: seq<RawRecord>, all: seq<RawRecord>, end: StreamStep)
    requires FramerOk(framer) && Tracks(framer, buffer, input, done, all, end)
    ensures var n := Resume(framer, buffer, input);
      (n.rec.None? ==> all == done && end == n) &&
      (n.rec.Some? ==> Tracks(framer, n.buffer, n.input, done + [n.rec.value], all, end))
  {
    var n := Resume(framer, buffer, input);
    if n.rec.Some? {
      AppendShift(done, n.rec.value, StreamAll(framer, n.buffer, n.input));
    }
  }

  /** Message `i` of `ms` was built from record `i` of `recs`. */
  ghost predicate Built(ms: seq<Message>, recs: seq<RawRecord>)
    reads ms
  {
    |ms| == |recs| && forall i :: 0 <= i < |ms| ==> ms[i].Attrs() == Load(recs[i])
  }

  /** Appending a message built from `r` to messages built from `done`. */
  lemma Grow(ms: seq<Message>, done: seq<RawRecord>, m: Message, r: RawRecord)
    requires Built(ms, done) && m.Attrs() == Load(r)
    ensures Built(ms + [m], done + [r])
  {
  }

  /** `DltReader`: the native reader's buffer and the reads the underlying file object
      will return (`readinto` gives back one entry per call). */
  class DltReader {
    const framer: Framer
    var buffer: seq<byte>
    var input: seq<seq<byte>>

    ghost predicate Valid()
      reads this
    {
      FramerOk(framer)
    }

    /** Wraps a byte source; the native reader starts with an empty buffer. The filter
        list and the storage-header switch are handed to the native reader and live in
        `framer`. */
    constructor (framer: Framer, input: seq<seq<byte>>)
      requires FramerOk(framer)
      ensures Valid() && this.framer == framer && buffer == [] && this.input == input
    {
      this.framer := framer;
      buffer := [];
      this.input := input;
    }

    /** `readinto`: the next read of the source, zero bytes once it is exhausted. */
    method ReadInto() returns (chunk: seq<byte>)
      modifies this`input
      ensures chunk == (if old(input) == [] then [] else old(input)[0])
      ensures input == (if old(input) == [] then [] else old(input)[1..])
    {
      if input == [] {
        chunk := [];
      } else {
        chunk := input[0];
        input := input[1..];
      }
    }

    /** `get_next_message`: fills the native buffer until it holds a complete record,
        builds the message and releases the record's bytes; None when a read returns
        zero bytes first. */
    method GetNextMessage() returns (m: Message?)
      requires Valid()
      modifies this`buffer, this`input
      ensures Valid()
      ensures var n := StreamNext(framer, old(buffer), old(input));
        buffer == n.buffer && input == n.input && (m == null <==> n.rec.None?) &&
        (m != null ==> fresh(m) && m.Attrs() == Load(n.rec.value) && m.payloadCache.None?)
    {
      while framer(buffer).None?
        invariant StreamNext(framer, old(buffer), old(input)) == StreamNext(framer, buffer, input)
        decreases |input|
      {
        var chunk := ReadInto();
        if |chunk| == 0 {
          return null;
        }
        buffer := buffer + chunk;
      }
      var f := framer(buffer).value;
      m := new Message(f.rec);
      buffer := buffer[f.end..];
    }

    /** One `next()` on the `__iter__` generator: the next verbose message, or None
        once `get_next_message` has returned None. */
    method Next() returns (m: Message?)
      requires Valid()
      modifies this`buffer, this`input
      ensures Valid()
      ensures var n := Resume(framer, old(buffer), old(input));
        buffer == n.buffer && input == n.input && (m == null <==> n.rec.None?) &&
        (m != null ==> fresh(m) && m.Attrs() == Load(n.rec.value) && m.verbose == Some(true))
    {
      while true
        invariant Valid()
        invariant Resume(framer, old(buffer), old(input)) == Resume(framer, buffer, input)
        decreases Measure(buffer, input)
      {
        ghost var s := StreamNext(framer, buffer, input);
        m := GetNextMessage();
        if m == null {
          return;
        }
        LoadVerbose(s.rec.value);
        if m.verbose == Some(true) {
          return;
        }
      }
    }

    /** One `next()` of the generator inside `__iter__`'s consumer: either the iteration
        ends here, in the state `end`, or the message it yields is appended to `ms`,
        built from the next record of `all`. */
    method Pull(ms: seq<Message>, ghost done: seq<RawRecord>, ghost all: seq<RawRecord>, ghost end: StreamStep)
      returns (stop: bool, ms': seq<Message>, ghost done': seq<RawRecord>)
      requires Valid() && Tracks(framer, buffer, input, done, all, end) && Built(ms, done)
      modifies this`buffer, this`input
      ensures Valid() && Built(ms', done')
      ensures stop ==> ms' == ms && done' == done && all == done && buffer == end.buffer && input == end.input
      ensures !stop ==> Tracks(framer, buffer, input, done', all, end)
      ensures !stop ==> Measure(buffer, input) < old(Measure(buffer, input))
      ensures !stop ==> |ms'| == |ms| + 1 && ms'[..|ms|] == ms
      ensures var n := Resume(framer, old(buffer), old(input));
        !stop ==> n.rec.Some? && done' == done + [n.rec.value] && buffer == n.buffer && input == n.input
    {
      ghost var n := Resume(framer, buffer, input);
      Advance(framer, buffer, input, done, all, end);
      var m := Next();
      if m == null {
        return true, ms, done;
      }
      Grow(ms, done, m, n.rec.value);
      return false, ms + [m], done + [n.rec.value];
    }

    /** `__iter__`: the verbose messages `get_next_message` returns until it returns None. */
    method Iterate() returns (ms: seq<Message>)
      requires Valid()
      modifies this`buffer, this`input
      ensures Valid()
      ensures |ms| == |StreamAll(framer, old(buffer), old(input))|
      ensures forall i :: 0 <= i < |ms| ==> ms[i].Attrs() == Load(StreamAll(framer, old(buffer), old(input))[i])
      ensures buffer == StreamEnd(framer, old(buffer), old(input)).buffer
      ensures input == StreamEnd(framer, old(buffer), old(input)).input
      ensures framer(buffer).None?
    {
      ghost var all := StreamAll(framer, buffer, input);
      ghost var end := StreamEnd(framer, buffer, input);
      ghost var done: seq<RawRecord> := [];
      ms := [];
      var stop := false;
      while !stop
        invariant Valid() && Built(ms, done)
        invariant stop ==> all == done && buffer == end.buffer && input == end.input
        invariant !stop ==> Tracks(framer, buffer, input, done, all, end)
        decreases !stop, Measure(buffer, input)
      {
        stop, ms, done := Pull(ms, done, all, end);
      }
    }
  }
}
