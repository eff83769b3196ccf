/** Decoding of a message payload into its list of typed values
    (`get_value` and `parse_payload` of dltpy/dltfile.py). */
module Payload {
  import opened Base

  /** One decoded value as the payload list holds it: the data of a string,
      an unsigned or signed integer, a float or a boolean. */
  datatype Value = Bytes(data: seq<byte>) | UInt(u: nat) | SInt(i: int) | Float(f: real) | Bool(b: bool)

  /** One payload item as the generated item parser leaves it. Each value kind is an
      attribute that the parser sets or leaves absent; `strg` is the string flag of the
      item's type info and `width` the number of bytes the parser consumed. */
  datatype Item = Item(
    str: Option<seq<byte>>,
    uint: Option<nat>,
    sint: Option<int>,
    flt: Option<real>,
    boolean: Option<bool>,
    strg: bool,
    width: nat)

  /** The generated item parser, applied to the payload at a cursor;
      `None` when it raises. */
  type ItemDecoder = (seq<byte>, nat) -> Option<Item>

  /** What the generated parser guarantees: an item it returns was read from the
      bytes at the cursor, so it consumed at least one and at most the remaining bytes. */
  ghost predicate DecoderOk(decode: ItemDecoder)
  {
    forall pl: seq<byte>, c: nat :: c < |pl| && decode(pl, c).Some? ==>
      0 < decode(pl, c).value.width <= |pl| - c
  }

  lemma DecodedWithin(decode: ItemDecoder, pl: seq<byte>, c: nat)
    requires DecoderOk(decode) && c < |pl| && decode(pl, c).Some?
    ensures 0 < decode(pl, c).value.width <= |pl| - c
  {
  }

  /** The value kinds of an item in the order `get_value` probes them:
      str, uint, sint, float, bool. */
  function Kinds(item: Item): seq<Option<Value>>
  {
    [ if item.str.Some? then Some(Bytes(item.str.value)) else None,
      if item.uint.Some? then Some(UInt(item.uint.value)) else None,
      if item.sint.Some? then Some(SInt(item.sint.value)) else None,
      if item.flt.Some? then Some(Float(item.flt.value)) else None,
      if item.boolean.Some? then Some(Bool(item.boolean.value)) else None ]
  }

  /** The first present entry of `ks`, probing from the front. */
  function FirstPresent(ks: seq<Option<Value>>): Option<Value>
  {
    if ks == [] then None
    else if ks[0].Some? then ks[0]
    else FirstPresent(ks[1..])
  }

  /** The probe returns nothing exactly when every entry is absent, and otherwise an
      entry that only absent entries precede. */
  lemma {:induction false} FirstPresentIsFirst(ks: seq<Option<Value>>)
    ensures var r := FirstPresent(ks);
      (r.None? <==> forall k :: 0 <= k < |ks| ==> ks[k].None?) &&
      (r.Some? ==> exists k :: 0 <= k < |ks| && ks[k] == r && forall j :: 0 <= j < k ==> ks[j].None?)
  {
    if ks != [] && ks[0].None? {
      var r := FirstPresent(ks[1..]);
      FirstPresentIsFirst(ks[1..]);
      assert forall k :: 1 <= k < |ks| ==> ks[k] == ks[1..][k - 1];
      if r.Some? {
        var k :| 0 <= k < |ks[1..]| && ks[1..][k] == r && forall j :: 0 <= j < k ==> ks[1..][j].None?;
        assert ks[k + 1] == r;
        assert forall j :: 1 <= j < k + 1 ==> ks[j] == ks[1..][j - 1];
      }
    }
  }

  /** `get_value`: the first present value of an item. */
  function GetValue(item: Item): Option<Value>
  {
    FirstPresent(Kinds(item))
  }

  /** `get_value` probes the kinds in the order str, uint, sint, float, bool and
      returns the first one present; `None` exactly when the item has no value kind. */
  lemma GetValueProbesInOrder(item: Item)
    ensures var r := GetValue(item);
      (r.None? <==> item.str.None? && item.uint.None? && item.sint.None? && item.flt.None? && item.boolean.None?) &&
      (r.Some? ==> exists k :: 0 <= k < 5 && Kinds(item)[k] == r && forall j :: 0 <= j < k ==> Kinds(item)[j].None?)
  {
    var ks := Kinds(item);
    FirstPresentIsFirst(ks);
    assert |ks| == 5;
    assert ks[0].Some? <==> item.str.Some?;
    assert ks[1].Some? <==> item.uint.Some?;
    assert ks[2].Some? <==> item.sint.Some?;
    assert ks[3].Some? <==> item.flt.Some?;
    assert ks[4].Some? <==> item.boolean.Some?;
  }

  /** A string item's data is present, non-empty and ends in the NUL terminator. */
  predicate Terminated(v: Value)
  {
    v.Bytes? && |v.data| > 0 && v.data[|v.data| - 1] == 0
  }

  /** What one loop step of `parse_payload` makes of an item: the value it appends, no
      value kind (the whole parse yields None), or an exception from the string check. */
  datatype ItemOutcome = Emit(v: Value) | NoKind | Malformed

  function ItemValue(item: Item): ItemOutcome
  {
    match GetValue(item)
    case None => NoKind
    case Some(v) =>
      if !item.strg then Emit(v)
      else if Terminated(v) then Emit(Bytes(v.data[..|v.data| - 1]))
      else Malformed
  }

  /** One step of `parse_payload` on an item: no value kind stops the parse with None;
      otherwise a string-flagged item must carry terminated string data, which is emitted
      without its terminator, and any other item emits its first present value unchanged. */
  lemma ItemValueCases(item: Item)
    ensures ItemValue(item).NoKind? <==> GetValue(item).None?
    ensures item.strg ==> (ItemValue(item).Emit? <==> GetValue(item).Some? && Terminated(GetValue(item).value))
    ensures !item.strg ==> !ItemValue(item).Malformed?
    ensures item.strg && ItemValue(item).Emit? ==>
      ItemValue(item).v.Bytes? && ItemValue(item).v.data + [0] == GetValue(item).value.data
    ensures !item.strg && ItemValue(item).Emit? ==> ItemValue(item).v == GetValue(item).value
  {
    if item.strg && ItemValue(item).Emit? {
      var d := GetValue(item).value.data;
      assert d[..|d| - 1] + [0] == d;
    }
  }

  /** String items: a value that is a string's data followed by its terminator is
      handed out as exactly that data, one byte shorter. */
  lemma StringItemStripsTerminator(item: Item, s: seq<byte>)
    requires item.strg && item.str == Some(s + [0])
    ensures ItemValue(item) == Emit(Bytes(s))
    ensures |ItemValue(item).v.data| == |s + [0]| - 1
  {
    assert Kinds(item)[0] == Some(Bytes(s + [0]));
    assert GetValue(item) == Some(Bytes(s + [0]));
    assert (s + [0])[..|s|] == s;
  }

  /** String items: an emitted string value never ends in the NUL it was sent with,
      and a string item whose data does not end in NUL is never emitted. */
  lemma StringItemNeedsTerminator(item: Item, s: seq<byte>)
    requires item.strg && item.str == Some(s)
    ensures ItemValue(item).Emit? <==> |s| > 0 && s[|s| - 1] == 0
    ensures ItemValue(item).Emit? ==> ItemValue(item).v == Bytes(s[..|s| - 1])
  {
    assert Kinds(item)[0] == Some(Bytes(s));
    assert GetValue(item) == Some(Bytes(s));
  }

  /** The result of `parse_payload`: the list of values, None (an item with no
      value kind at `offset`), or an exception raised while decoding the item at `offset`. */
  datatype Parsed = Values(vals: seq<Value>) | NoValue(offset: nat) | Raised(offset: nat)

  /** Values `vs` decoded before a parse that went on to produce `r`. */
  function Prepend(vs: seq<Value>, r: Parsed): Parsed
  {
    if r.Values? then Values(vs + r.vals) else r
  }

  lemma PrependNothing(r: Parsed)
    ensures Prepend([], r) == r
  {
    if r.Values? {
      assert [] + r.vals == r.vals;
    }
  }

  lemma PrependTwice(a: seq<Value>, b: seq<Value>, r: Parsed)
    ensures Prepend(a, Prepend(b, r)) == Prepend(a + b, r)
  {
    if r.Values? {
      assert a + (b + r.vals) == (a + b) + r.vals;
    }
  }

  /** One step of the cursor: an item that yields `v` puts `v` before the rest. */
  lemma ParseStep(decode: ItemDecoder, pl: seq<byte>, c: nat, item: Item, v: Value)
    requires DecoderOk(decode) && c < |pl| && decode(pl, c) == Some(item) && ItemValue(item) == Emit(v)
    ensures ParseFrom(decode, pl, c) == Prepend([v], ParseFrom(decode, pl, c + item.width))
  {
  }

  /** Reference semantics of `parse_payload` from cursor `c` on. */
  function ParseFrom(decode: ItemDecoder, pl: seq<byte>, c: nat): Parsed
    requires DecoderOk(decode)
    decreases |pl| - c
  {
    if c >= |pl| then Values([])
    else match decode(pl, c)
      case None => Raised(c)
      case Some(item) =>
        match ItemValue(item)
        case NoKind => NoValue(c)
        case Malformed => Raised(c)
        case Emit(v) => Prepend([v], ParseFrom(decode, pl, c + item.width))
  }

  /** `parse_payload`: walks a cursor over the payload, decoding one item per step and
      appending its value. */
  method ParsePayload(decode: ItemDecoder, pl: seq<byte>) returns (r: Parsed)
    requires DecoderOk(decode)
    ensures r == ParseFrom(decode, pl, 0)
  {
    var cursor: nat := 0;
    var ret: seq<Value> := [];
    PrependNothing(ParseFrom(decode, pl, 0));
    while cursor < |pl|
      invariant cursor <= |pl|
      invariant ParseFrom(decode, pl, 0) == Prepend(ret, ParseFrom(decode, pl, cursor))
      decreases |pl| - cursor
    {
      var start := cursor;
      var item := decode(pl, cursor);
      if item.None? {
        return Raised(start);
      }
      DecodedWithin(decode, pl, start);
      var value := GetValue(item.value);
      if value.None? {
        return NoValue(start);
      }
      var v := value.value;
      if item.value.strg {
        if !Terminated(v) {
          return Raised(start);
        }
        v := Bytes(v.data[..|v.data| - 1]);
      }
      assert ItemValue(item.value) == Emit(v);
      cursor := cursor + item.value.width;
      ParseStep(decode, pl, start, item.value, v);
      PrependTwice(ret, [v], ParseFrom(decode, pl, cursor));
      ret := ret + [v];
    }
    assert ret + [] == ret;
    return Values(ret);
  }

  /** One item visited by the cursor, at the offset where its decoding started. */
  datatype Step = Step(offset: nat, item: Item)

  /** The items the cursor visits from `c`, and whether the walk reached the end of
      the payload (otherwise the item parser raised at the next offset). */
  datatype Walked = Walked(steps: seq<Step>, complete: bool)

  /** The cursor walk of `parse_payload`, ignoring what the items hold. */
  function Walk(decode: ItemDecoder, pl: seq<byte>, c: nat): Walked
    requires DecoderOk(decode) && c <= |pl|
    decreases |pl| - c
  {
    if c == |pl| then Walked([], true)
    else match decode(pl, c)
      case None => Walked([], false)
      case Some(item) =>
        var rest := Walk(decode, pl, c + item.width);
        Walked([Step(c, item)] + rest.steps, rest.complete)
  }

  /** The walk starts at `c`, visits offsets inside the payload where an item decodes,
      each right after the bytes of the previous one, and when complete its last item
      ends exactly at the end of the payload. */
  lemma {:induction false} WalkVisits(decode: ItemDecoder, pl: seq<byte>, c: nat)
    requires DecoderOk(decode) && c <= |pl|
    ensures var w := Walk(decode, pl, c);
      (forall i :: 0 <= i < |w.steps| ==> c <= w.steps[i].offset < |pl|) &&
      (forall i :: 0 <= i < |w.steps| ==> decode(pl, w.steps[i].offset) == Some(w.steps[i].item)) &&
      (|w.steps| > 0 ==> w.steps[0].offset == c) &&
      (forall i, j :: 0 <= i && j == i + 1 && j < |w.steps| ==> Follows(w.steps[i], w.steps[j])) &&
      (w.complete ==> |pl| == (if w.steps == [] then c else Last(w.steps).offset + Last(w.steps).item.width))
    decreases |pl| - c
  {
    if c < |pl| && decode(pl, c).Some? {
      var item := decode(pl, c).value;
      DecodedWithin(decode, pl, c);
      WalkVisits(decode, pl, c + item.width);
      var w, rest := Walk(decode, pl, c), Walk(decode, pl, c + item.width);
      assert w.steps == [Step(c, item)] + rest.steps;
      assert forall i :: 1 <= i < |w.steps| ==> w.steps[i] == rest.steps[i - 1];
    }
  }

  /** The cursor resumes right after the bytes the previous item consumed. */
  predicate Follows(prev: Step, next: Step)
  {
    next.offset == prev.offset + prev.item.width
  }

  function Last(steps: seq<Step>): Step
    requires steps != []
  {
    steps[|steps| - 1]
  }

  /** Every visited item yields a value. */
  predicate AllEmit(steps: seq<Step>)
  {
    forall i :: 0 <= i < |steps| ==> ItemValue(steps[i].item).Emit?
  }

  lemma AllEmitCons(s: Step, rest: seq<Step>)
    ensures AllEmit([s] + rest) <==> ItemValue(s.item).Emit? && AllEmit(rest)
  {
    var w := [s] + rest;
    assert w[0] == s;
    assert forall i :: 0 <= i < |rest| ==> rest[i] == w[i + 1];
  }

  lemma FirstNoKindCons(s: Step, rest: seq<Step>, k: int, offset: nat)
    requires ItemValue(s.item).Emit? && FirstNoKind(rest, k, offset)
    ensures FirstNoKind([s] + rest, k + 1, offset)
  {
    var w := [s] + rest;
    assert w[k + 1] == rest[k];
    assert w[..k + 1] == [s] + rest[..k];
    AllEmitCons(s, rest[..k]);
  }

  /** The values of the visited items, in cursor order. */
  function EmittedValues(steps: seq<Step>): (vs: seq<Value>)
    requires AllEmit(steps)
    ensures |vs| == |steps|
    ensures forall i :: 0 <= i < |steps| ==> vs[i] == ItemValue(steps[i].item).v
  {
    seq(|steps|, i requires 0 <= i < |steps| => ItemValue(steps[i].item).v)
  }

  /** `parse_payload` is all-or-nothing over the cursor walk: it yields a list exactly
      when the walk reaches the end of the payload and every item yields a value, and the
      list then holds one value per item, in cursor order. */
  lemma {:induction false} ParseFollowsWalk(decode: ItemDecoder, pl: seq<byte>, c: nat)
    requires DecoderOk(decode) && c <= |pl|
    ensures var w, r := Walk(decode, pl, c), ParseFrom(decode, pl, c);
      (r.Values? <==> w.complete && AllEmit(w.steps)) &&
      (r.Values? ==> AllEmit(w.steps) && r.vals == EmittedValues(w.steps))
    decreases |pl| - c
  {
    if c < |pl| && decode(pl, c).Some? {
      var item := decode(pl, c).value;
      var w, rest := Walk(decode, pl, c), Walk(decode, pl, c + item.width);
      assert w.steps == [Step(c, item)] + rest.steps;
      AllEmitCons(Step(c, item), rest.steps);
      if ItemValue(item).Emit? {
        var v := ItemValue(item).v;
        ParseFollowsWalk(decode, pl, c + item.width);
        ParseStep(decode, pl, c, item, v);
        if AllEmit(rest.steps) {
          EmittedCons(Step(c, item), rest.steps);
        }
      }
    }
  }

  lemma EmittedCons(s: Step, rest: seq<Step>)
    requires ItemValue(s.item).Emit? && AllEmit(rest)
    ensures AllEmit([s] + rest)
    ensures EmittedValues([s] + rest) == [ItemValue(s.item).v] + EmittedValues(rest)
  {
    AllEmitCons(s, rest);
    var w := [s] + rest;
    var vs := [ItemValue(s.item).v] + EmittedValues(rest);
    forall i | 0 <= i < |w|
      ensures EmittedValues(w)[i] == vs[i]
    {
      if i > 0 {
        assert w[i] == rest[i - 1];
      }
    }
  }

  /** When `parse_payload` yields None, the offset it reports is that of the first
      visited item that has no value kind. */
  lemma {:induction false} NoValueAtFirstKindless(decode: ItemDecoder, pl: seq<byte>, c: nat)
    requires DecoderOk(decode) && c <= |pl|
    requires ParseFrom(decode, pl, c).NoValue?
    ensures exists k :: FirstNoKind(Walk(decode, pl, c).steps, k, ParseFrom(decode, pl, c).offset)
    decreases |pl| - c
  {
    var item := decode(pl, c).value;
    var w, rest := Walk(decode, pl, c), Walk(decode, pl, c + item.width);
    assert w.steps == [Step(c, item)] + rest.steps;
    if ItemValue(item).NoKind? {
      assert w.steps[..0] == [];
      assert FirstNoKind(w.steps, 0, c);
    } else {
      var v := ItemValue(item).v;
      var off := ParseFrom(decode, pl, c).offset;
      ParseStep(decode, pl, c, item, v);
      assert ParseFrom(decode, pl, c + item.width) == NoValue(off);
      NoValueAtFirstKindless(decode, pl, c + item.width);
      var k :| FirstNoKind(rest.steps, k, off);
      FirstNoKindCons(Step(c, item), rest.steps, k, off);
    }
  }

  /** Item `k` is the first visited item without a value kind and starts at `offset`. */
  predicate FirstNoKind(steps: seq<Step>, k: int, offset: nat)
  {
    0 <= k < |steps| && steps[k].offset == offset &&
    ItemValue(steps[k].item).NoKind? && AllEmit(steps[..k])
  }

  lemma FirstNoKindUncons(s: Step, rest: seq<Step>, k: int, offset: nat)
    requires FirstNoKind([s] + rest, k, offset) && k > 0
    ensures ItemValue(s.item).Emit? && FirstNoKind(rest, k - 1, offset)
  {
    var w := [s] + rest;
    assert w[k] == rest[k - 1];
    assert w[..k] == [s] + rest[..k - 1];
    AllEmitCons(s, rest[..k - 1]);
  }

  /** Conversely, the first visited item without a value kind decides the result:
      `parse_payload` yields None with that item's offset. */
  lemma {:induction false} FirstKindlessGivesNoValue(decode: ItemDecoder, pl: seq<byte>, c: nat, k: int, offset: nat)
    requires DecoderOk(decode) && c <= |pl|
    requires FirstNoKind(Walk(decode, pl, c).steps, k, offset)
    ensures ParseFrom(decode, pl, c) == NoValue(offset)
    decreases |pl| - c
  {
    var item := decode(pl, c).value;
    var w, rest := Walk(decode, pl, c), Walk(decode, pl, c + item.width);
    assert w.steps == [Step(c, item)] + rest.steps;
    if k == 0 {
      assert w.steps[0] == Step(c, item);
    } else {
      FirstNoKindUncons(Step(c, item), rest.steps, k, offset);
      FirstKindlessGivesNoValue(decode, pl, c + item.width, k - 1, offset);
      ParseStep(decode, pl, c, item, ItemValue(item).v);
    }
  }

  /** A payload never comes back partially decoded: once an item along the walk has
      no value kind, the result is not a list of values. */
  lemma NeverPartial(decode: ItemDecoder, pl: seq<byte>, k: nat)
    requires DecoderOk(decode)
    requires k < |Walk(decode, pl, 0).steps|
    requires ItemValue(Walk(decode, pl, 0).steps[k].item).NoKind?
    ensures !ParseFrom(decode, pl, 0).Values?
  {
    ParseFollowsWalk(decode, pl, 0);
  }
}
