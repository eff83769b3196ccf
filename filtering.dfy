/** The application/context filter of `DltMessage.match` (dltpy/dltfile.py). */
module Filtering {
  import opened Base

  /** One filter entry: an application id and a context id, each `None` for "any". */
  datatype FilterPair = FilterPair(app: Option<string>, ctx: Option<string>)

  /** A filter entry accepts a message whose (app, ctx) agree with it on every
      field the entry does not leave open. */
  predicate PairMatches(p: FilterPair, app: Option<string>, ctx: Option<string>)
  {
    (p.app.None? || app == p.app) && (p.ctx.None? || ctx == p.ctx)
  }

  /** `DltMessage.match`: the entries are tried in order and the first one that
      accepts the message makes the answer true. */
  function Match(app: Option<string>, ctx: Option<string>, filters: seq<FilterPair>): (r: bool)
    ensures r <==> exists i :: 0 <= i < |filters| && PairMatches(filters[i], app, ctx)
  {
    if filters == [] then false
    else if PairMatches(filters[0], app, ctx) then true
    else
      var r := Match(app, ctx, filters[1..]);
      assert r ==> exists i :: 1 <= i < |filters| && PairMatches(filters[i], app, ctx) by {
        if r {
          var i :| 0 <= i < |filters[1..]| && PairMatches(filters[1..][i], app, ctx);
          assert filters[i + 1] == filters[1..][i];
        }
      }
      assert (exists i :: 1 <= i < |filters| && PairMatches(filters[i], app, ctx)) ==> r by {
        if exists i :: 1 <= i < |filters| && PairMatches(filters[i], app, ctx) {
          var i :| 1 <= i < |filters| && PairMatches(filters[i], app, ctx);
          assert filters[1..][i - 1] == filters[i];
        }
      }
      r
  }

  /** An exact entry accepts exactly the messages with that application and context
      id, and a list of exact entries accepts nothing else. */
  lemma ExactPairMatchesOnlyItself(filters: seq<FilterPair>, app: Option<string>, ctx: Option<string>)
    requires forall i :: 0 <= i < |filters| ==> filters[i].app.Some? && filters[i].ctx.Some?
    ensures Match(app, ctx, filters) <==> exists i :: 0 <= i < |filters| && filters[i] == FilterPair(app, ctx)
  {
    if Match(app, ctx, filters) {
      var i :| 0 <= i < |filters| && PairMatches(filters[i], app, ctx);
      assert filters[i] == FilterPair(app, ctx);
    }
    if exists i :: 0 <= i < |filters| && filters[i] == FilterPair(app, ctx) {
      var i :| 0 <= i < |filters| && filters[i] == FilterPair(app, ctx);
      assert PairMatches(filters[i], app, ctx);
    }
  }

  /** Adding entries never makes the filter reject a message it accepted; an entry
      with both fields open makes it accept every message. */
  lemma MatchMonotone(filters: seq<FilterPair>, more: seq<FilterPair>, app: Option<string>, ctx: Option<string>)
    ensures Match(app, ctx, filters) ==> Match(app, ctx, filters + more)
    ensures Match(app, ctx, filters + [FilterPair(None, None)] + more)
  {
    if Match(app, ctx, filters) {
      var i :| 0 <= i < |filters| && PairMatches(filters[i], app, ctx);
      assert (filters + more)[i] == filters[i];
    }
    assert (filters + [FilterPair(None, None)] + more)[|filters|] == FilterPair(None, None);
  }
}
