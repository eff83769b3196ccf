/** The seekable-file reader of dltpy/dltfile.py (`DltFile`): record decoding at the
    file offset, signature resynchronisation after a failed decode, and selection of
    verbose, filter-accepted records. */
module FileMode {
  import opened Base
  import opened Filtering
  import opened Messages

  /** The storage-header signature `DLT\x01` that begins every stored DLT record. */
  const Signature: seq<byte> := [0x44, 0x4C, 0x54, 0x01]

  /** The four bytes at `o` are the signature. */
  predicate SignatureAt(data: seq<byte>, o: nat)
  {
    o + 4 <= |data| && data[o..o + 4] == Signature
  }

  /** The first signature at or after `o`, or the file length when there is none. */
  function ScanFrom(data: seq<byte>, o: nat): (r: nat)
    requires o <= |data|
    decreases |data| - o
    ensures o <= r <= |data|
    ensures r < |data| ==> SignatureAt(data, r)
    ensures forall p :: o <= p < r ==> !SignatureAt(data, p)
  {
    if o == |data| then |data|
    else if SignatureAt(data, o) then o
    else ScanFrom(data, o + 1)
  }

  /** Where decoding resumes after a failure at `s`: the first signature strictly
      after `s`, or the file length. */
  function Resync(data: seq<byte>, s: nat): nat
    requires s < |data|
  {
    ScanFrom(data, s + 1)
  }

  /** After a failure at `s` decoding resumes at the smallest offset past `s` where the
      signature starts, or at the file length when no later offset has one; it never
      goes back to `s` or before, and it is the only offset with these properties. */
  lemma ResyncIsFirstSignature(data: seq<byte>, s: nat, o: nat)
    requires s < |data|
    ensures s < Resync(data, s) <= |data|
    ensures Resync(data, s) < |data| ==> SignatureAt(data, Resync(data, s))
    ensures forall p :: s < p < Resync(data, s) ==> !SignatureAt(data, p)
    ensures s < o <= |data| && (o < |data| ==> SignatureAt(data, o)) &&
            (forall p :: s < p < o ==> !SignatureAt(data, p))
            ==> o == Resync(data, s)
  {
  }

  /** A signature can only be found where four bytes remain, so the scan ends at the
      file length when at most three bytes follow the failed offset. */
  lemma ResyncNearEnd(data: seq<byte>, s: nat)
    requires s < |data| && |data| < s + 5
    ensures Resync(data, s) == |data|
  {
  }

  /** One stored record decoded at an offset and the number of bytes it took. */
  datatype Stored = Stored(rec: RawRecord, width: nat)

  /** The generated stored-message parser at a file offset; `None` when it raises. */
  type StoredDecoder = (seq<byte>, nat) -> Option<Stored>

  /** What the generated parser guarantees: a record it returns was read from the
      bytes at the offset, at least one and at most the remaining ones. */
  ghost predicate StoredOk(parse: StoredDecoder, data: seq<byte>)
  {
    forall p: nat :: p < |data| && parse(data, p).Some? ==> 0 < parse(data, p).value.width <= |data| - p
  }

  lemma StoredWithin(parse: StoredDecoder, data: seq<byte>, p: nat)
    requires StoredOk(parse, data) && p < |data| && parse(data, p).Some?
    ensures 0 < parse(data, p).value.width <= |data| - p
  {
  }

  /** The file-mode selection rule applied to a record's headers: verbose, and accepted
      by the filter list when there is one. */
  predicate Selects(raw: RawRecord, filters: Option<seq<FilterPair>>)
  {
    raw.ext.Some? && raw.ext.value.verbose &&
    (filters.None? || Match(Some(IdText(raw.ext.value.app)), Some(IdText(raw.ext.value.ctx)), filters.value))
  }

  /** An explicitly empty filter list keeps no record at all, while no filter list
      keeps every record whose message is verbose. */
  lemma EmptyFilterList(raw: RawRecord)
    ensures !Selects(raw, Some([]))
    ensures Selects(raw, None) <==> Load(raw).verbose == Some(true)
  {
  }

  /** Which decoded records the reader hands out; for `DltFile` this is `Selects`
      with its filter list. */
  type Keep = RawRecord -> bool

  /** The test `get_next_message` makes on the message built from a record is the
      reader's rule on the record's headers. */
  lemma KeepsLoaded(keep: Keep, filters: Option<seq<FilterPair>>, raw: RawRecord, a: Attributes)
    requires forall r :: keep(r) == Selects(r, filters)
    requires a == Load(raw)
    ensures keep(raw) == (a.verbose == Some(true) && (filters.None? || Match(a.app, a.ctx, filters.value)))
  {
  }

  /** The record a file reader hands out next, and the offset it leaves the file at. */
  datatype Next = Next(rec: Option<RawRecord>, pos: nat)

  /** Reference semantics of `DltFile.get_next_message` from offset `pos`. */
  function NextFrom(parse: StoredDecoder, data: seq<byte>, keep: Keep, pos: nat): (n: Next)
    requires StoredOk(parse, data) && pos <= |data|
    decreases |data| - pos
    ensures pos <= n.pos <= |data|
    ensures n.rec.None? ==> n.pos == |data|
    ensures n.rec.Some? ==> pos < n.pos && keep(n.rec.value)
  {
    if pos == |data| then Next(None, pos)
    else match parse(data, pos)
      case None => NextFrom(parse, data, keep, Resync(data, pos))
      case Some(st) =>
        if keep(st.rec) then Next(Some(st.rec), pos + st.width)
        else NextFrom(parse, data, keep, pos + st.width)
  }

  /** One step of `NextFrom`: a failed decode resumes at the resynchronisation offset. */
  lemma NextAfterFailure(parse: StoredDecoder, data: seq<byte>, keep: Keep, pos: nat)
    requires StoredOk(parse, data) && pos < |data| && parse(data, pos).None?
    ensures NextFrom(parse, data, keep, pos) == NextFrom(parse, data, keep, Resync(data, pos))
  {
  }

  /** One step of `NextFrom`: a decoded record is handed out when the rule keeps it and
      skipped otherwise. */
  lemma NextAfterRecord(parse: StoredDecoder, data: seq<byte>, keep: Keep, pos: nat, st: Stored)
    requires StoredOk(parse, data) && pos < |data| && parse(data, pos) == Some(st)
    ensures keep(st.rec) ==> NextFrom(parse, data, keep, pos) == Next(Some(st.rec), pos + st.width)
    ensures !keep(st.rec) ==> NextFrom(parse, data, keep, pos) == NextFrom(parse, data, keep, pos + st.width)
  {
  }

  /** Every record decoded along the file, in file order: after a failure decoding
      resumes at the resynchronisation offset, after a success right behind the record. */
  function Records(parse: StoredDecoder, data: seq<byte>, pos: nat): seq<RawRecord>
    requires StoredOk(parse, data) && pos <= |data|
    decreases |data| - pos
  {
    if pos == |data| then []
    else match parse(data, pos)
      case None => Records(parse, data, Resync(data, pos))
      case Some(st) => [st.rec] + Records(parse, data, pos + st.width)
  }

  /** The records of `recs` that are kept, in order. */
  function Kept(recs: seq<RawRecord>, keep: Keep): (r: seq<RawRecord>)
    ensures forall i :: 0 <= i < |r| ==> keep(r[i])
  {
    if recs == [] then []
    else (if keep(recs[0]) then [recs[0]] else []) + Kept(recs[1..], keep)
  }

  /** The messages iterating over a file yields from `pos` on. */
  function AllFrom(parse: StoredDecoder, data: seq<byte>, keep: Keep, pos: nat): seq<RawRecord>
    requires StoredOk(parse, data) && pos <= |data|
    decreases |data| - pos
  {
    var n := NextFrom(parse, data, keep, pos);
    if n.rec.None? then [] else [n.rec.value] + AllFrom(parse, data, keep, n.pos)
  }

  lemma KeptCons(r: RawRecord, recs: seq<RawRecord>, keep: Keep)
    ensures Kept([r] + recs, keep) == (if keep(r) then [r] else []) + Kept(recs, keep)
  {
    assert ([r] + recs)[0] == r && ([r] + recs)[1..] == recs;
  }

  /** Iteration over a file loses no record it can decode: it yields exactly the
      decoded records that are kept, in file order. */
  lemma {:induction false} AllFromKeepsSelected(parse: StoredDecoder, data: seq<byte>, keep: Keep, pos: nat)
    requires StoredOk(parse, data) && pos <= |data|
    ensures AllFrom(parse, data, keep, pos) == Kept(Records(parse, data, pos), keep)
    decreases |data| - pos
  {
    if pos < |data| {
      match parse(data, pos)
      case None =>
        AllFromKeepsSelected(parse, data, keep, Resync(data, pos));
      case Some(st) =>
        KeptCons(st.rec, Records(parse, data, pos + st.width), keep);
        AllFromKeepsSelected(parse, data, keep, pos + st.width);
    }
  }

  /** `DltFile`: a file of fixed contents, the file offset of its open handle, the
      filter list (None for no filtering) and the stored-message parser. */
  class DltFile {
    const data: seq<byte>
    const filters: Option<seq<FilterPair>>
    const parse: StoredDecoder
    /** The selection rule of this reader, `Selects` with its filter list. */
    const keep: Keep
    var pos: nat

    ghost predicate Valid()
      reads this
    {
      pos <= |data| && StoredOk(parse, data) && forall r :: keep(r) == Selects(r, filters)
    }

    /** Opens the file at offset 0. */
    constructor (data: seq<byte>, filters: Option<seq<FilterPair>>, parse: StoredDecoder)
      requires StoredOk(parse, data)
      ensures Valid() && pos == 0
      ensures this.data == data && this.filters == filters && this.parse == parse
    {
      this.data, this.filters, this.parse := data, filters, parse;
      keep := r => Selects(r, filters);
      pos := 0;
    }

    /** The recovery scan of `get_next_message` after a failed decode at `start`:
        reads four bytes at each later offset until they are the signature, stopping
        at the file length. */
    method ScanSignature(start: nat) returns (o: nat)
      requires start < |data|
      ensures o == Resync(data, start)
    {
      o := start + 1;
      while o < |data|
        invariant start < o <= |data|
        invariant forall p :: start < p < o ==> !SignatureAt(data, p)
        decreases |data| - o
      {
        var buf := data[o..if o + 4 <= |data| then o + 4 else |data|];
        if buf == Signature {
          break;
        }
        o := o + 1;
      }
      ResyncIsFirstSignature(data, start, o);
    }

    /** A decoded record `st` at the current offset: builds the message, moves past the
        record and returns the message when it is verbose and accepted by the filter,
        null otherwise. */
    method Accept(st: Stored) returns (m: Message?)
      requires Valid() && pos < |data| && parse(data, pos) == Some(st)
      modifies this`pos
      ensures Valid() && pos == old(pos) + st.width
      ensures m == null ==> NextFrom(parse, data, keep, old(pos)) == NextFrom(parse, data, keep, pos)
      ensures m != null ==> NextFrom(parse, data, keep, old(pos)) == Next(Some(st.rec), pos)
      ensures m != null ==> fresh(m) && m.Attrs() == Load(st.rec) && m.payloadCache.None?
    {
      StoredWithin(parse, data, pos);
      NextAfterRecord(parse, data, keep, pos, st);
      var msg := new Message(st.rec);
      KeepsLoaded(keep, filters, st.rec, msg.Attrs());
      pos := pos + st.width;
      m := null;
      if msg.verbose == Some(true) {
        if filters.Some? {
          if !Match(msg.app, msg.ctx, filters.value) {
            return;
          }
        }
        m := msg;
      }
    }

    /** One round of `get_next_message`'s loop at an offset before the end: a failed
        decode resynchronises, a decoded record goes to `Accept`. */
    method Round() returns (m: Message?)
      requires Valid() && pos < |data|
      modifies this`pos
      ensures Valid() && old(pos) < pos
      ensures m == null ==> NextFrom(parse, data, keep, old(pos)) == NextFrom(parse, data, keep, pos)
      ensures var n := NextFrom(parse, data, keep, old(pos));
        m != null ==> n.rec.Some? && n.pos == pos && fresh(m) && m.Attrs() == Load(n.rec.value) && m.payloadCache.None?
    {
      var sm := parse(data, pos);
      if sm.None? {
        NextAfterFailure(parse, data, keep, pos);
        pos := ScanSignature(pos);
        return null;
      }
      m := Accept(sm.value);
    }

    /** `get_next_message`: decodes records from the current offset, resynchronising on
        failures, until one is verbose and accepted by the filter or the file ends. */
    method GetNextMessage() returns (m: Message?)
      requires Valid()
      modifies this`pos
      ensures Valid()
      ensures var n := NextFrom(parse, data, keep, old(pos));
        pos == n.pos && (m == null <==> n.rec.None?) &&
        (m != null ==> fresh(m) && m.Attrs() == Load(n.rec.value) && m.payloadCache.None?)
    {
      while pos != |data|
        invariant Valid()
        invariant NextFrom(parse, data, keep, old(pos)) == NextFrom(parse, data, keep, pos)
        decreases |data| - pos
      {
        m := Round();
        if m != null {
          return;
        }
      }
      return null;
    }

    /** `__iter__`: the messages `get_next_message` returns until it returns None. */
    method Iterate() returns (ms: seq<Message>)
      requires Valid()
      modifies this`pos
      ensures Valid() && pos == |data|
      ensures var recs := AllFrom(parse, data, keep, old(pos));
        |ms| == |recs| && forall i :: 0 <= i < |ms| ==> ms[i].Attrs() == Load(recs[i])
    {
      ghost var all := AllFrom(parse, data, keep, pos);
      ghost var done: seq<RawRecord> := [];
      ghost var rest := all;
      ms := [];
      while true
        invariant Valid()
        invariant rest == AllFrom(parse, data, keep, pos) && all == done + rest
        invariant |done| == |ms| && forall i :: 0 <= i < |ms| ==> ms[i].Attrs() == Load(done[i])
        decreases |data| - pos
      {
        ghost var n := NextFrom(parse, data, keep, pos);
        var m := GetNextMessage();
        if m == null {
          assert rest == [];
          assert all == done;
          return;
        }
        ghost var tail := AllFrom(parse, data, keep, pos);
        assert rest == [n.rec.value] + tail;
        AppendShift(done, n.rec.value, tail);
        done, rest := done + [n.rec.value], tail;
        ms := ms + [m];
      }
    }
  }
}
