/** Span ingestion (server/src/tracing.rs): a forest of spans is walked in
    pre-order; each span whose two timestamps are valid is inserted into
    the span table, and the id it receives is remembered under its uuid so
    that later spans naming it as parent can link to it. */
module Tracing {
  import opened Wrappers

  newtype u64 = x: int | 0 <= x < 0x1_0000_0000_0000_0000

  /** `x as i64`: the same 64 bits read as a two's-complement number. */
  function AsI64(x: u64): (r: int)
    ensures -0x8000_0000_0000_0000 <= r < 0x8000_0000_0000_0000
    ensures (r - x as int) % 0x1_0000_0000_0000_0000 == 0
    ensures x < 0x8000_0000_0000_0000 <==> r == x as int
  {
    if x < 0x8000_0000_0000_0000 then x as int else x as int - 0x1_0000_0000_0000_0000
  }

  /** A span as it arrives in the payload. */
  datatype Span = Span(
    id: string,
    parentSpanId: Option<string>,
    startTime: u64,
    endTime: u64,
    operationName: string,
    childSpans: seq<Span>)

  /** A row of the span table; the two timestamps are milliseconds since
      the epoch, and `externalUuid` is the span's id when it parses as a
      uuid. */
  datatype InsertableSpan = InsertableSpan(
    tsStart: int,
    tsEnd: int,
    operationName: string,
    parentSpanId: Option<int>,
    externalUuid: Option<string>)

  /** What the walk depends on but does not compute itself:
      `validMillis(m)` holds when `timestamp_millis_opt(m)` is a single
      instant, `parseUuid` is `Uuid::from_str(..).ok()`, and
      `rejects(rows, row)` holds when inserting `row` after `rows` fails. */
  datatype Env = Env(
    validMillis: int -> bool,
    parseUuid: string -> Option<string>,
    rejects: (seq<InsertableSpan>, InsertableSpan) -> bool)

  /** The state the walk threads through: the span table (row `i` has id
      `i + 1`) and the map from span uuid to the id of its row. */
  datatype Ingest = Ingest(rows: seq<InsertableSpan>, ids: map<string, int>)

  /** Both timestamps name a single instant once read as `i64`; a
      timestamp below 2^63 is read unchanged. */
  predicate HasValidTimes(env: Env, s: Span): (b: bool)
    ensures s.startTime < 0x8000_0000_0000_0000 && s.endTime < 0x8000_0000_0000_0000 ==>
      (b <==> env.validMillis(s.startTime as int) && env.validMillis(s.endTime as int))
  {
    env.validMillis(AsI64(s.startTime)) && env.validMillis(AsI64(s.endTime))
  }

  /** The row a valid span becomes: its name and parsed uuid, and a parent
      link exactly when the parent uuid is already known, to that parent's
      row; an unknown parent is dropped, not an error. */
  function RowFor(env: Env, ids: map<string, int>, s: Span): (row: InsertableSpan)
    ensures row.operationName == s.operationName && row.externalUuid == env.parseUuid(s.id)
    ensures row.parentSpanId.Some? <==> s.parentSpanId.Some? && s.parentSpanId.value in ids
    ensures row.parentSpanId.Some? ==> row.parentSpanId.value == ids[s.parentSpanId.value]
    ensures s.startTime < 0x8000_0000_0000_0000 ==> row.tsStart == s.startTime as int
    ensures s.endTime < 0x8000_0000_0000_0000 ==> row.tsEnd == s.endTime as int
  {
    var parent := if s.parentSpanId.Some? && s.parentSpanId.value in ids then Some(ids[s.parentSpanId.value]) else None;
    InsertableSpan(AsI64(s.startTime), AsI64(s.endTime), s.operationName, parent, env.parseUuid(s.id))
  }

  /** The effect of one span, its children aside: a span with valid times
      whose insert is not rejected is appended and mapped to its new row;
      any other span changes nothing. */
  function Visit(env: Env, st: Ingest, s: Span): (r: Ingest)
    ensures r == st || (HasValidTimes(env, s) && r.rows == st.rows + [RowFor(env, st.ids, s)])
    ensures r.rows == st.rows ==> r.ids == st.ids
    ensures r.rows != st.rows ==> r.ids == st.ids[s.id := |r.rows|]
    ensures HasValidTimes(env, s) && !env.rejects(st.rows, RowFor(env, st.ids, s)) ==>
      r.rows == st.rows + [RowFor(env, st.ids, s)] && r.ids == st.ids[s.id := |st.rows| + 1]
    ensures !HasValidTimes(env, s) || env.rejects(st.rows, RowFor(env, st.ids, s)) ==> r == st
  {
    if HasValidTimes(env, s) then
      var row := RowFor(env, st.ids, s);
      if env.rejects(st.rows, row) then st
      else Ingest(st.rows + [row], st.ids[s.id := |st.rows| + 1])
    else st
  }

  /** The spans of a forest in the order the walk visits them: each span,
      then its children's subtrees, then the following siblings. */
  function PreOrder(spans: seq<Span>): (r: seq<Span>)
    ensures |spans| <= |r|
    ensures spans != [] ==> r[0] == spans[0]
    ensures forall s :: s in spans ==> s in r
    decreases spans
  {
    if spans == [] then []
    else
      assert spans[0] in spans;
      [spans[0]] + PreOrder(spans[0].childSpans) + PreOrder(spans[1..])
  }

  /** The effect of visiting `spans` in order; spans none of which has
      valid timestamps change nothing. */
  function VisitAll(env: Env, st: Ingest, spans: seq<Span>): (r: Ingest)
    ensures (forall i :: 0 <= i < |spans| ==> !HasValidTimes(env, spans[i])) ==> r == st
    decreases |spans|
  {
    if spans == [] then st else VisitAll(env, Visit(env, st, spans[0]), spans[1..])
  }

  // ---------------------------------------------------------------------
  // Structure of the walk
  // ---------------------------------------------------------------------

  lemma {:induction false} PreOrderConcat(a: seq<Span>, b: seq<Span>)
    ensures PreOrder(a + b) == PreOrder(a) + PreOrder(b)
    decreases a
  {
    if a == [] {
      assert a + b == b;
    } else {
      assert (a + b)[0] == a[0];
      assert (a + b)[1..] == a[1..] + b;
      PreOrderConcat(a[1..], b);
    }
  }

  lemma PreOrderSingle(s: Span)
    ensures PreOrder([s]) == [s] + PreOrder(s.childSpans)
  {
    assert [s][1..] == [];
  }

  lemma {:induction false} VisitAllConcat(env: Env, st: Ingest, a: seq<Span>, b: seq<Span>)
    ensures VisitAll(env, st, a + b) == VisitAll(env, VisitAll(env, st, a), b)
    decreases a
  {
    if a == [] {
      assert a + b == b;
    } else {
      assert (a + b)[0] == a[0];
      assert (a + b)[1..] == a[1..] + b;
      VisitAllConcat(env, Visit(env, st, a[0]), a[1..], b);
    }
  }

  /** Every span of the forest is visited, and so is every child of a
      visited span, whether or not that span was valid. */
  lemma {:induction false} PreOrderClosed(spans: seq<Span>)
    ensures forall s :: s in spans ==> s in PreOrder(spans)
    ensures forall s, c :: s in PreOrder(spans) && c in s.childSpans ==> c in PreOrder(spans)
    decreases spans
  {
    if spans != [] {
      assert spans[0] in spans;
      PreOrderClosed(spans[0].childSpans);
      PreOrderClosed(spans[1..]);
      assert spans == [spans[0]] + spans[1..];
    }
  }

  /** The number of spans in a forest, counting every descendant once. */
  function Size(spans: seq<Span>): nat
    decreases spans
  {
    if spans == [] then 0
    else
      assert spans[0] in spans;
      1 + Size(spans[0].childSpans) + Size(spans[1..])
  }

  /** Each span is visited exactly once: the walk has one step per span. */
  lemma {:induction false} PreOrderLength(spans: seq<Span>)
    ensures |PreOrder(spans)| == Size(spans)
    decreases spans
  {
    if spans != [] {
      assert spans[0] in spans;
      PreOrderLength(spans[0].childSpans);
      PreOrderLength(spans[1..]);
    }
  }

  /** A span with an invalid timestamp adds nothing itself, but its
      subtrees are still processed exactly as if they were roots. */
  lemma InvalidSpanSkippedChildrenVisited(env: Env, st: Ingest, s: Span)
    requires !HasValidTimes(env, s)
    ensures VisitAll(env, st, PreOrder([s])) == VisitAll(env, st, PreOrder(s.childSpans))
  {
    PreOrderSingle(s);
    VisitAllConcat(env, st, [s], PreOrder(s.childSpans));
  }

  // ---------------------------------------------------------------------
  // What the walk preserves
  // ---------------------------------------------------------------------

  /** Every remembered id names an existing row. */
  predicate IdsInRange(st: Ingest) {
    forall k :: k in st.ids ==> 1 <= st.ids[k] <= |st.rows|
  }

  /** Every parent link points to an earlier row. */
  predicate LinksBackward(rows: seq<InsertableSpan>) {
    forall i :: 0 <= i < |rows| && rows[i].parentSpanId.Some? ==> 1 <= rows[i].parentSpanId.value <= i
  }

  /** The walk only appends rows, only valid spans become rows, at most one
      row is added per visited span, uuids are never forgotten, and every
      new or changed map entry points at a row added by the walk. */
  lemma {:induction false} VisitAllAppendOnly(env: Env, st: Ingest, spans: seq<Span>)
    ensures var r := VisitAll(env, st, spans);
      && st.rows <= r.rows
      && |r.rows| <= |st.rows| + |spans|
      && (forall i :: |st.rows| <= i < |r.rows| ==>
            env.validMillis(r.rows[i].tsStart) && env.validMillis(r.rows[i].tsEnd))
      && (forall k :: k in st.ids ==> k in r.ids)
      && (forall k :: k in r.ids && (k !in st.ids || r.ids[k] != st.ids[k]) ==>
            |st.rows| < r.ids[k] <= |r.rows|)
    decreases spans
  {
    if spans != [] {
      var mid := Visit(env, st, spans[0]);
      VisitAllAppendOnly(env, mid, spans[1..]);
    }
  }

  /** Parent links resolved through the map always point backwards. */
  lemma {:induction false} VisitAllKeepsLinksBackward(env: Env, st: Ingest, spans: seq<Span>)
    requires IdsInRange(st) && LinksBackward(st.rows)
    ensures IdsInRange(VisitAll(env, st, spans)) && LinksBackward(VisitAll(env, st, spans).rows)
    decreases spans
  {
    if spans != [] {
      var mid := Visit(env, st, spans[0]);
      assert IdsInRange(mid) && LinksBackward(mid.rows) by {
        if mid != st {
          assert forall i :: 0 <= i < |st.rows| ==> mid.rows[i] == st.rows[i];
        }
      }
      VisitAllKeepsLinksBackward(env, mid, spans[1..]);
    }
  }

  /** A span whose parent was inserted earlier in the walk is linked to
      that parent's row. */
  lemma ParentLinkedWhenKnown(env: Env, st: Ingest, s: Span)
    requires HasValidTimes(env, s) && s.parentSpanId.Some? && s.parentSpanId.value in st.ids
    requires !env.rejects(st.rows, RowFor(env, st.ids, s))
    ensures Visit(env, st, s).rows == st.rows + [RowFor(env, st.ids, s)]
    ensures Visit(env, st, s).rows[|st.rows|].parentSpanId == Some(st.ids[s.parentSpanId.value])
    ensures Visit(env, st, s).ids[s.id] == |st.rows| + 1
  {
  }

  // ---------------------------------------------------------------------
  // The repository and the walk itself
  // ---------------------------------------------------------------------

  /** The span table. */
  class SpanRepository {
    var rows: seq<InsertableSpan>

    constructor ()
      ensures rows == []
    {
      rows := [];
    }

    /** `repo.create`: appends the row and returns its id, unless the
        insert is rejected. */
    method Create(env: Env, row: InsertableSpan) returns (id: Option<int>)
      modifies this
      ensures env.rejects(old(rows), row) ==> id == None && rows == old(rows)
      ensures !env.rejects(old(rows), row) ==> id == Some(|old(rows)| + 1) && rows == old(rows) + [row]
    {
      if env.rejects(rows, row) {
        id := None;
      } else {
        rows := rows + [row];
        id := Some(|rows|);
      }
    }
  }

  /** `process_span`: the span itself, then each child subtree in order. */
  method ProcessSpan(env: Env, span: Span, repo: SpanRepository, ids: map<string, int>)
    returns (ids': map<string, int>)
    modifies repo
    ensures Ingest(repo.rows, ids') == VisitAll(env, Ingest(old(repo.rows), ids), PreOrder([span]))
    decreases span
  {
    var start := AsI64(span.startTime);
    var end := AsI64(span.endTime);
    ids' := ids;
    if env.validMillis(start) && env.validMillis(end) {
      var parentSpanId := if span.parentSpanId.Some? && span.parentSpanId.value in ids'
                          then Some(ids'[span.parentSpanId.value]) else None;
      var row := InsertableSpan(start, end, span.operationName, parentSpanId, env.parseUuid(span.id));
      var created := repo.Create(env, row);
      if created.Some? {
        ids' := ids'[span.id := created.value];
      }
    }
    ghost var afterSelf := Ingest(repo.rows, ids');
    assert afterSelf == Visit(env, Ingest(old(repo.rows), ids), span);

    var children := span.childSpans;
    for i := 0 to |children|
      invariant Ingest(repo.rows, ids') == VisitAll(env, afterSelf, PreOrder(children[..i]))
    {
      assert children[i] in span.childSpans;
      ghost var before := Ingest(repo.rows, ids');
      ids' := ProcessSpan(env, children[i], repo, ids');
      assert children[..i + 1] == children[..i] + [children[i]];
      PreOrderConcat(children[..i], [children[i]]);
      VisitAllConcat(env, afterSelf, PreOrder(children[..i]), PreOrder([children[i]]));
    }
    assert children[..|children|] == children;
    PreOrderSingle(span);
    VisitAllConcat(env, Ingest(old(repo.rows), ids), [span], PreOrder(children));
  }

  datatype StatusCode = Ok

  /** `post`: every trace is processed in order, sharing one uuid map that
      starts empty; the answer is always OK. */
  method Post(env: Env, traces: seq<Span>, repo: SpanRepository) returns (status: StatusCode)
    modifies repo
    ensures repo.rows == VisitAll(env, Ingest(old(repo.rows), map[]), PreOrder(traces)).rows
    ensures status == Ok
  {
    var ids: map<string, int> := map[];
    ghost var start := Ingest(repo.rows, ids);
    for i := 0 to |traces|
      invariant Ingest(repo.rows, ids) == VisitAll(env, start, PreOrder(traces[..i]))
    {
      ids := ProcessSpan(env, traces[i], repo, ids);
      assert traces[..i + 1] == traces[..i] + [traces[i]];
      PreOrderConcat(traces[..i], [traces[i]]);
      VisitAllConcat(env, start, PreOrder(traces[..i]), PreOrder([traces[i]]));
    }
    assert traces[..|traces|] == traces;
    status := Ok;
  }
}
