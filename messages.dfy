/** `DltMessage` of dltpy/dltfile.py: the header-to-message field mapping (`loadn`),
    the memoised payload and its human-friendly rendering. */
module Messages {
  import opened Base
  import opened Payload

  /** Extended header fields the message reads: NUL-padded application and context
      ids and the verbose flag. */
  datatype ExtendedHeader = ExtendedHeader(app: seq<byte>, ctx: seq<byte>, verbose: bool)

  /** Standard header: the optional monotonic timestamp, in 0.1 ms ticks. */
  datatype BasicHeader = BasicHeader(tmsp: Option<nat>)

  /** Storage header: seconds and sub-second part of the storage timestamp. */
  datatype StorageHeader = StorageHeader(tsSec: nat, tsMsec: nat)

  /** One decoded record as a reader hands it to `DltMessage`: its headers (the extended
      one optional), the payload bytes and the bytes of the whole message. */
  datatype RawRecord = RawRecord(
    ext: Option<ExtendedHeader>,
    basic: BasicHeader,
    storage: StorageHeader,
    payload: seq<byte>,
    message: seq<byte>)

  /** The plain attributes of a message (everything but its payload cache). `ts` keeps
      the raw tick count the source scales by 1e-4; `date` keeps the storage seconds and
      sub-second part the source adds up as a float. */
  datatype Attributes = Attributes(
    app: Option<string>,
    ctx: Option<string>,
    ts: Option<nat>,
    date: Option<(nat, nat)>,
    verbose: Option<bool>,
    rawPayload: seq<byte>,
    rawData: seq<byte>)

  /** `bytes.replace(b'\0', b'')`: drops every NUL byte, wherever it is. */
  function RemoveNul(s: seq<byte>): seq<byte>
  {
    if s == [] then []
    else if s[0] == 0 then RemoveNul(s[1..]) else [s[0]] + RemoveNul(s[1..])
  }

  /** Removing NULs leaves no NUL, and removes nothing else: every other byte value
      keeps its number of occurrences. */
  lemma {:induction false} RemoveNulDropsExactlyNuls(s: seq<byte>)
    ensures forall i :: 0 <= i < |RemoveNul(s)| ==> RemoveNul(s)[i] != 0
    ensures multiset(RemoveNul(s)) == multiset(s)[0 := 0]
  {
    if s != [] {
      RemoveNulDropsExactlyNuls(s[1..]);
      assert s == [s[0]] + s[1..];
    }
  }

  /** Removing NULs works piece by piece: it keeps the order of the other bytes. */
  lemma {:induction false} RemoveNulAppend(a: seq<byte>, b: seq<byte>)
    ensures RemoveNul(a + b) == RemoveNul(a) + RemoveNul(b)
  {
    if a == [] {
      assert a + b == b;
    } else {
      assert (a + b)[0] == a[0] && (a + b)[1..] == a[1..] + b;
      RemoveNulAppend(a[1..], b);
    }
  }

  /** Bytes without NUL come through unchanged, so an id padded with NULs on the wire
      (or with NULs in between) loses exactly its NULs. */
  lemma {:induction false} RemoveNulKeepsId(id: seq<byte>, pad: nat)
    requires forall i :: 0 <= i < |id| ==> id[i] != 0
    ensures RemoveNul(id) == id
    ensures RemoveNul(id + seq(pad, _ => 0 as byte)) == id
  {
    if id != [] {
      RemoveNulKeepsId(id[1..], 0);
      assert id == [id[0]] + id[1..];
    }
    var zeros := seq(pad, _ => 0 as byte);
    AllNul(zeros);
    RemoveNulAppend(id, zeros);
  }

  lemma {:induction false} AllNul(z: seq<byte>)
    requires forall i :: 0 <= i < |z| ==> z[i] == 0
    ensures RemoveNul(z) == []
  {
    if z != [] {
      AllNul(z[1..]);
    }
  }

  /** Attributes of a freshly initialised message, before `loadn`. */
  const Initial := Attributes(None, None, None, None, None, [], [])

  /** `loadn` applied to attributes `a`: the ids (NULs removed) and the verbose flag
      come from the extended header when there is one, the timestamp only when the
      standard header carries a non-zero one; payload and message bytes always. */
  function LoadOnto(a: Attributes, raw: RawRecord): Attributes
  {
    var ext, tmsp := raw.ext, raw.basic.tmsp;
    Attributes(
      app := if ext.Some? then Some(IdText(ext.value.app)) else a.app,
      ctx := if ext.Some? then Some(IdText(ext.value.ctx)) else a.ctx,
      ts := if tmsp.Some? && tmsp.value != 0 then tmsp else a.ts,
      date := Some((raw.storage.tsSec, raw.storage.tsMsec)),
      verbose := if ext.Some? then Some(ext.value.verbose) else a.verbose,
      rawPayload := raw.payload,
      rawData := raw.message)
  }

  /** An id as the message holds it: its bytes without NULs, decoded to text. */
  function IdText(id: seq<byte>): string
  {
    Text(RemoveNul(id))
  }

  /** The attributes a message built from `raw` ends up with. */
  function Load(raw: RawRecord): Attributes
  {
    LoadOnto(Initial, raw)
  }

  /** What `loadn` promises about a constructed message: ids carry no NUL, ids and
      verbose flag are known exactly when there is an extended header, `ts` is set only
      for a non-zero timestamp, and payload and message bytes are the record's. */
  lemma LoadFields(raw: RawRecord)
    ensures var a := Load(raw);
      (a.app.Some? <==> raw.ext.Some?) && (a.ctx.Some? <==> raw.ext.Some?) &&
      (a.verbose.Some? <==> raw.ext.Some?) &&
      (raw.ext.Some? ==> a.verbose == Some(raw.ext.value.verbose)) &&
      (a.app.Some? ==> forall i :: 0 <= i < |a.app.value| ==> a.app.value[i] != '\0') &&
      (a.ctx.Some? ==> forall i :: 0 <= i < |a.ctx.value| ==> a.ctx.value[i] != '\0') &&
      (a.ts.Some? <==> raw.basic.tmsp.Some? && raw.basic.tmsp.value != 0) &&
      a.rawPayload == raw.payload && a.rawData == raw.message
  {
    if raw.ext.Some? {
      var app, ctx := RemoveNul(raw.ext.value.app), RemoveNul(raw.ext.value.ctx);
      RemoveNulDropsExactlyNuls(raw.ext.value.app);
      RemoveNulDropsExactlyNuls(raw.ext.value.ctx);
      TextCodes(app);
      TextCodes(ctx);
    }
  }

  /** The record has an extended header whose verbose flag is set. */
  predicate IsVerbose(raw: RawRecord)
  {
    raw.ext.Some? && raw.ext.value.verbose
  }

  /** A message is verbose (`msg.verbose` is true) exactly when its record is. */
  lemma LoadVerbose(raw: RawRecord)
    ensures Load(raw).verbose == Some(true) <==> IsVerbose(raw)
  {
  }

  /** Python's `str.isspace`, which `str.strip()` uses. */
  predicate IsSpace(c: char)
  {
    ('\t' <= c <= '\r') || ('\U{1C}' <= c <= ' ') || c == '\U{85}' || c == '\U{A0}' ||
    c == '\U{1680}' || ('\U{2000}' <= c <= '\U{200A}') || c == '\U{2028}' || c == '\U{2029}' ||
    c == '\U{202F}' || c == '\U{205F}' || c == '\U{3000}'
  }

  /** Leading whitespace removed: a suffix of `s` that starts with a non-space. */
  function LStrip(s: string): (r: string)
    ensures |r| <= |s| && r == s[|s| - |r|..]
    ensures forall i :: 0 <= i < |s| - |r| ==> IsSpace(s[i])
    ensures r != [] ==> !IsSpace(r[0])
  {
    if s != [] && IsSpace(s[0]) then
      var r := LStrip(s[1..]);
      assert forall i :: 1 <= i < |s| - |r| ==> s[i] == s[1..][i - 1];
      r
    else s
  }

  /** Trailing whitespace removed: a prefix of `s` that ends with a non-space. */
  function RStrip(s: string): (r: string)
    ensures |r| <= |s| && r == s[..|r|]
    ensures forall i :: |r| <= i < |s| ==> IsSpace(s[i])
    ensures r != [] ==> !IsSpace(r[|r| - 1])
  {
    if s != [] && IsSpace(s[|s| - 1]) then
      var r := RStrip(s[..|s| - 1]);
      assert forall i :: |r| <= i < |s| - 1 ==> s[i] == s[..|s| - 1][i];
      r
    else s
  }

  /** `str.strip()`: the contiguous part of `s` left once all leading and trailing
      whitespace is gone. */
  function Strip(s: string): (r: string)
    ensures exists i, j ::
      0 <= i <= j <= |s| && r == s[i..j] &&
      (forall k :: 0 <= k < i ==> IsSpace(s[k])) &&
      (forall k :: j <= k < |s| ==> IsSpace(s[k]))
    ensures r != [] ==> !IsSpace(r[0]) && !IsSpace(r[|r| - 1])
  {
    var l := LStrip(s);
    var r := RStrip(l);
    StripSlice(s, |s| - |l|, l, r);
    r
  }

  /** A prefix `r` of the suffix `l` of `s` that starts at `i` is the slice of `s` from
      `i`, and whatever follows it in `s` is whitespace when it is whitespace in `l`. */
  lemma StripSlice(s: string, i: nat, l: string, r: string)
    requires i <= |s| && l == s[i..] && |r| <= |l| && r == l[..|r|]
    requires forall k :: |r| <= k < |l| ==> IsSpace(l[k])
    ensures i + |r| <= |s| && r == s[i..i + |r|]
    ensures forall k :: i + |r| <= k < |s| ==> IsSpace(s[k])
  {
    forall k | i + |r| <= k < |s|
      ensures IsSpace(s[k])
    {
      assert s[k] == l[k - i];
    }
  }

  /** Text with no leading or trailing whitespace is its own strip. */
  lemma StripClean(s: string)
    requires s != [] ==> !IsSpace(s[0]) && !IsSpace(s[|s| - 1])
    ensures Strip(s) == s
  {
  }

  /** UTF-8 decoding of string data; `None` when the bytes are not valid UTF-8. */
  type Utf8Decoder = seq<byte> -> Option<string>

  /** The value of `human_friendly_payload`: cleaned-up text, the string's bytes when
      they do not decode, the payload list (or None) unchanged, or the exception of the
      payload access. */
  datatype Friendly = Rendered(text: string) | Undecodable(data: seq<byte>) | Unchanged(payload: Option<seq<Value>>) | PayloadRaised(offset: nat)

  /** The payload is a list holding exactly one string value. */
  predicate SingleBytes(p: Parsed)
  {
    p.Values? && |p.vals| == 1 && p.vals[0].Bytes?
  }

  /** One trailing NUL removed from decoded text longer than one character. */
  function DropTrailingNul(t: string): string
  {
    if |t| > 1 && t[|t| - 1] == '\0' then t[..|t| - 1] else t
  }

  /** `human_friendly_payload` over the result of the payload access. */
  function HumanFriendly(p: Parsed, utf8: Utf8Decoder): (r: Friendly)
    ensures !SingleBytes(p) && p.Values? ==> r == Unchanged(Some(p.vals))
    ensures p.NoValue? ==> r == Unchanged(None)
    ensures p.Raised? ==> r == PayloadRaised(p.offset)
    ensures SingleBytes(p) ==> (r.Rendered? <==> utf8(p.vals[0].data).Some?)
    ensures SingleBytes(p) && r.Undecodable? ==> r.data == p.vals[0].data
    ensures r.Rendered? ==> r.text != [] ==> !IsSpace(r.text[0]) && !IsSpace(r.text[|r.text| - 1])
  {
    match p
    case Raised(o) => PayloadRaised(o)
    case NoValue(_) => Unchanged(None)
    case Values(vs) =>
      if |vs| == 1 && vs[0].Bytes? then
        match utf8(vs[0].data)
        case None => Undecodable(vs[0].data)
        case Some(t) =>
          var s := Strip(DropTrailingNul(t));
          Rendered(s)
      else Unchanged(Some(vs))
  }

  /** At most one trailing NUL is dropped, and only from text longer than one character. */
  lemma DropTrailingNulCases(t: string)
    ensures |t| > 1 && t[|t| - 1] == '\0' ==> DropTrailingNul(t) + ['\0'] == t
    ensures !(|t| > 1 && t[|t| - 1] == '\0') ==> DropTrailingNul(t) == t
  {
    if |t| > 1 && t[|t| - 1] == '\0' {
      assert DropTrailingNul(t) + ['\0'] == t;
    }
  }

  /** Rendering a single string that decodes to `t`: the text is `t` with at most one
      trailing NUL dropped (only from text longer than one character) and then stripped,
      so by the contract of `Strip` exactly its leading and trailing whitespace is cut;
      text that is already clean comes back as it is. */
  lemma HumanFriendlyText(d: seq<byte>, utf8: Utf8Decoder, t: string)
    requires utf8(d) == Some(t)
    ensures |t| > 1 && t[|t| - 1] == '\0' ==> DropTrailingNul(t) + ['\0'] == t
    ensures !(|t| > 1 && t[|t| - 1] == '\0') ==> DropTrailingNul(t) == t
    ensures HumanFriendly(Values([Bytes(d)]), utf8) == Rendered(Strip(DropTrailingNul(t)))
    ensures t != [] && t[|t| - 1] != '\0' && !IsSpace(t[0]) && !IsSpace(t[|t| - 1]) ==>
      HumanFriendly(Values([Bytes(d)]), utf8) == Rendered(t)
  {
    DropTrailingNulCases(t);
    RendersStripped(d, utf8, t);
    if t != [] && t[|t| - 1] != '\0' && !IsSpace(t[0]) && !IsSpace(t[|t| - 1]) {
      RendersClean(d, utf8, t);
    }
  }

  lemma RendersStripped(d: seq<byte>, utf8: Utf8Decoder, t: string)
    requires utf8(d) == Some(t)
    ensures HumanFriendly(Values([Bytes(d)]), utf8) == Rendered(Strip(DropTrailingNul(t)))
  {
  }

  lemma RendersClean(d: seq<byte>, utf8: Utf8Decoder, t: string)
    requires utf8(d) == Some(t)
    requires t != [] && t[|t| - 1] != '\0' && !IsSpace(t[0]) && !IsSpace(t[|t| - 1])
    ensures HumanFriendly(Values([Bytes(d)]), utf8) == Rendered(t)
  {
    assert DropTrailingNul(t) == t;
    StripClean(t);
    RendersStripped(d, utf8, t);
  }

  /** `DltMessage`: the attributes `loadn` fills in, the payload cache and a ghost
      count of how often the payload was parsed. */
  class Message {
    var app: Option<string>
    var ctx: Option<string>
    var ts: Option<nat>
    var date: Option<(nat, nat)>
    var verbose: Option<bool>
    var rawPayload: seq<byte>
    var rawData: seq<byte>
    var payloadCache: Option<seq<Value>>
    ghost var parses: nat

    function Attrs(): Attributes
      reads this
    {
      Attributes(app, ctx, ts, date, verbose, rawPayload, rawData)
    }

    /** `DltMessage(raw)`: every attribute starts as None, the cache empty, then
        `loadn` reads the record. The `raw_data` argument of the source is left out:
        `loadn` overwrites it with the record's message bytes. */
    constructor (raw: RawRecord)
      ensures Attrs() == Load(raw)
      ensures payloadCache.None? && parses == 0
    {
      app, ctx, ts, date, verbose := None, None, None, None, None;
      rawPayload, rawData := [], [];
      payloadCache := None;
      parses := 0;
      new;
      Loadn(raw);
    }

    /** `loadn`: copies the header fields into the message. */
    method Loadn(raw: RawRecord)
      modifies this`app, this`ctx, this`verbose, this`ts, this`date, this`rawPayload, this`rawData
      ensures Attrs() == LoadOnto(old(Attrs()), raw)
    {
      if raw.ext.Some? {
        var ehdr := raw.ext.value;
        app := Some(Text(RemoveNul(ehdr.app)));
        ctx := Some(Text(RemoveNul(ehdr.ctx)));
        verbose := Some(ehdr.verbose);
      }
      var t := raw.basic.tmsp;
      if t.Some? && t.value != 0 {
        ts := Some(t.value);
      }
      date := Some((raw.storage.tsSec, raw.storage.tsMsec));
      rawPayload := raw.payload;
      rawData := raw.message;
    }

    /** The `payload` property: parses the raw payload only while nothing is cached,
        and caches the result only when it is a list (None is recomputed next time).
        An exception leaves the cache as it was. */
    method Payload(decode: ItemDecoder) returns (r: Parsed)
      requires DecoderOk(decode)
      modifies this`payloadCache, this`parses
      ensures old(payloadCache).Some? ==>
        r == Values(old(payloadCache).value) && payloadCache == old(payloadCache) && parses == old(parses)
      ensures old(payloadCache).None? ==>
        r == ParseFrom(decode, rawPayload, 0) && parses == old(parses) + 1 &&
        payloadCache == (if r.Values? then Some(r.vals) else None)
    {
      if payloadCache.None? {
        r := ParsePayload(decode, rawPayload);
        parses := parses + 1;
        if r.Values? {
          payloadCache := Some(r.vals);
        }
      } else {
        r := Values(payloadCache.value);
      }
    }

    /** The `human_friendly_payload` property, over the payload access. */
    method HumanFriendlyPayload(decode: ItemDecoder, utf8: Utf8Decoder) returns (r: Friendly)
      requires DecoderOk(decode)
      modifies this`payloadCache, this`parses
      ensures r == HumanFriendly(
        if old(payloadCache).Some? then Values(old(payloadCache).value) else ParseFrom(decode, rawPayload, 0),
        utf8)
      ensures old(payloadCache).Some? ==> payloadCache == old(payloadCache) && parses == old(parses)
      ensures old(payloadCache).None? ==> parses == old(parses) + 1
      ensures old(payloadCache).None? ==>
        payloadCache == (if ParseFrom(decode, rawPayload, 0).Values? then Some(ParseFrom(decode, rawPayload, 0).vals) else None)
    {
      var pl := Payload(decode);
      r := HumanFriendly(pl, utf8);
    }
  }

  /** Two payload accesses in a row return the same result. A list costs at most one
      parse and stays cached; None and an exception are parsed again and leave nothing
      cached. */
  method PayloadTwice(m: Message, decode: ItemDecoder) returns (first: Parsed, second: Parsed)
    requires DecoderOk(decode)
    modifies m`payloadCache, m`parses
    ensures first.Values? ==> second == first && m.parses <= old(m.parses) + 1
    ensures first.Values? ==> m.payloadCache == Some(first.vals)
    ensures first.NoValue? ==> second == first && m.parses == old(m.parses) + 2 && m.payloadCache.None?
    ensures first.Raised? ==> second == first && m.parses == old(m.parses) + 2 && m.payloadCache.None?
  {
    first := m.Payload(decode);
    second := m.Payload(decode);
  }
}
