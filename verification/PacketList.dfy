/** The packet list (src/tui/mod.rs): rows, an index from ids to rows, a filtered view and selections,
    kept in step while packets come in and old rows are trimmed. */
module PacketList {
  import opened Wrappers
  import opened Numbers
  import opened SearchCondition

  const MAX_ROWS := 10_000
  const TRIM_ROWS := 1_000
  const WAITING_ROW_TEXT := "waiting for packets..."

  datatype Mode = Main | Search

  datatype Event =
    | Started(row: Row)
    | Completed(id: string, status: U16, elapsed: int)
    | Marked(id: string, flowKey: string, mark: RowMark)
    | TunnelFailed(row: Row)
  {
    /** Captured packets carry a non-empty id; a starting packet has no status, a failed tunnel is a CONNECT. */
    predicate IsValid() {
      match this
      case Started(row) => row.id != "" && row.status.None?
      case TunnelFailed(row) => row.id != "" && row.status.None? && row.IsTunnel()
      case _ => true
    }
  }

  /** The outcome of parsing a search query. */
  datatype Query = Blank | Conditions(matcher: Matcher) | BadRegex(message: string)

  // ----- what the index and the view should be

  /** The index holds exactly the non-empty row ids, each at its last row. */
  ghost predicate IndexAgrees(rows: seq<Row>, index: map<string, nat>) {
    && (forall i :: 0 <= i < |rows| && rows[i].id != "" ==> rows[i].id in index && i <= index[rows[i].id])
    && (forall id :: id in index ==> id != "" && index[id] < |rows| && rows[index[id]].id == id)
  }

  /** Whether a row belongs in the view of a matcher. */
  predicate IsShown(m: Matcher, row: Row) {
    row.id != "" && Accepts(m, row)
  }

  /** The ids the matcher accepts, in row order, without the rows at some positions. */
  function View(rows: seq<Row>, m: Matcher, without: set<nat>): seq<string> {
    if rows == [] then []
    else
      var n := |rows| - 1;
      View(rows[..n], m, without) + if IsShown(m, rows[n]) && n !in without then [rows[n].id] else []
  }

  lemma ViewSnoc(rows: seq<Row>, row: Row, m: Matcher, without: set<nat>)
    ensures View(rows + [row], m, without) ==
            View(rows, m, without) + if IsShown(m, row) && |rows| !in without then [row.id] else []
  {
    assert (rows + [row])[..|rows|] == rows;
  }

  /** The view depends only on what the matcher sees of the rows. */
  lemma {:induction false} ViewSame(a: seq<Row>, b: seq<Row>, m: Matcher, s: set<nat>, t: set<nat>)
    requires |a| == |b|
    requires forall i :: 0 <= i < |a| ==> a[i].id == b[i].id && (IsShown(m, a[i]) <==> IsShown(m, b[i]))
    requires forall i :: 0 <= i < |a| ==> (i in s <==> i in t)
    ensures View(a, m, s) == View(b, m, t)
  {
    if a != [] {
      ViewSame(a[..|a| - 1], b[..|b| - 1], m, s, t);
    }
  }

  /** Only failed tunnels are ever missing from the view. */
  ghost predicate AreTunnels(rows: seq<Row>, lagging: set<nat>) {
    forall i :: i in lagging ==> i < |rows| && rows[i].IsTunnel()
  }

  lemma TunnelsSnoc(rows: seq<Row>, lagging: set<nat>, row: Row)
    requires AreTunnels(rows, lagging)
    ensures AreTunnels(rows + [row], lagging)
    ensures row.IsTunnel() ==> AreTunnels(rows + [row], lagging + {|rows|})
  {
  }

  /** Exactly the accepted rows appended by failed tunnels since the last rebuild are missing. */
  lemma FailedTunnelLags(rows: seq<Row>, row: Row, m: Matcher, without: set<nat>)
    requires forall i :: i in without ==> i < |rows|
    ensures View(rows + [row], m, without + {|rows|}) == View(rows, m, without)
    ensures View(rows + [row], m, without) == View(rows, m, without) <==> !IsShown(m, row)
  {
    ViewSnoc(rows, row, m, without);
    ViewSnoc(rows, row, m, without + {|rows|});
    ViewSame(rows, rows, m, without, without + {|rows|});
  }

  lemma {:induction false} ViewHasShownIds(rows: seq<Row>, m: Matcher, without: set<nat>)
    ensures forall id :: id in View(rows, m, without) ==> exists i :: 0 <= i < |rows| && rows[i].id == id && id != ""
  {
    if rows != [] {
      ViewHasShownIds(rows[..|rows| - 1], m, without);
      forall id | id in View(rows, m, without) ensures exists i :: 0 <= i < |rows| && rows[i].id == id && id != "" {
        if id in View(rows[..|rows| - 1], m, without) {
          var i :| 0 <= i < |rows| - 1 && rows[..|rows| - 1][i].id == id && id != "";
          assert rows[i].id == id;
        } else {
          assert rows[|rows| - 1].id == id;
        }
      }
    }
  }

  /** With distinct ids the index is the inverse of the row list. */
  lemma DistinctIdsAreInverse(rows: seq<Row>, index: map<string, nat>)
    requires IndexAgrees(rows, index)
    requires forall i, j :: 0 <= i < j < |rows| && rows[i].id != "" ==> rows[i].id != rows[j].id
    ensures forall i :: 0 <= i < |rows| && rows[i].id != "" ==> rows[i].id in index && index[rows[i].id] == i
    ensures forall id :: id in index <==> id != "" && exists i :: 0 <= i < |rows| && rows[i].id == id
  {
    forall i | 0 <= i < |rows| && rows[i].id != "" ensures rows[i].id in index && index[rows[i].id] == i {
      var j := index[rows[i].id];
      assert rows[j].id == rows[i].id;
    }
    forall id | id in index ensures exists i :: 0 <= i < |rows| && rows[i].id == id {
      assert rows[index[id]].id == id;
    }
  }

  function Min(a: nat, b: nat): nat {
    if a < b then a else b
  }

  function Minus(a: nat, b: nat): nat {
    if a < b then 0 else a - b
  }

  /** How many rows a trim drops. */
  function TrimCount(rows: nat): nat {
    if rows <= MAX_ROWS then 0 else Min(TRIM_ROWS, rows)
  }

  lemma IndexSnoc(rows: seq<Row>, index: map<string, nat>, row: Row)
    requires IndexAgrees(rows, index) && row.id != ""
    ensures IndexAgrees(rows + [row], index[row.id := |rows|])
  {
  }

  lemma IndexIgnoresUnnamed(rows: seq<Row>, index: map<string, nat>, row: Row)
    requires IndexAgrees(rows, index) && row.id == ""
    ensures IndexAgrees(rows + [row], index)
  {
  }

  /** Marking a row moves nothing and changes nothing a search looks at. */
  lemma MarkKeeps(
    rows: seq<Row>, index: map<string, nat>, i: nat, marks: seq<RowMark>, m: Option<Matcher>, lagging: set<nat>)
    requires i < |rows| && IndexAgrees(rows, index) && AreTunnels(rows, lagging)
    ensures var marked := rows[i := rows[i].(marks := marks)];
      && IndexAgrees(marked, index) && AreTunnels(marked, lagging)
      && (m.Some? ==> View(marked, m.value, lagging) == View(rows, m.value, lagging))
  {
    var marked := rows[i := rows[i].(marks := marks)];
    if m.Some? {
      AcceptsSeesOnly(m.value, rows[i], marked[i]);
      ViewSame(rows, marked, m.value, lagging, lagging);
    }
  }

  // ----- the same list without an index or a view

  /** The row an id names: the last one that carries it. */
  function LastOf(rows: seq<Row>, id: string): (r: Option<nat>)
    ensures r.Some? ==> id != "" && r.value < |rows| && rows[r.value].id == id
    ensures r.Some? ==> forall i :: r.value < i < |rows| ==> rows[i].id != id
    ensures r.None? && id != "" ==> forall i :: 0 <= i < |rows| ==> rows[i].id != id
  {
    if rows == [] || id == "" then None
    else if rows[|rows| - 1].id == id then Some(|rows| - 1)
    else LastOf(rows[..|rows| - 1], id)
  }

  /** Looking an id up in the index finds its last row. */
  lemma IndexIsLast(rows: seq<Row>, index: map<string, nat>, id: string)
    requires IndexAgrees(rows, index)
    ensures LastOf(rows, id) == if id in index then Some(index[id]) else None
  {
    if id in index {
      assert rows[index[id]].id == id;
    }
  }

  /** The rows and, while searching, the positions the view has not caught up with. */
  datatype Plain = Plain(rows: seq<Row>, searching: bool, lagging: set<nat>) {
    predicate IsWaiting() {
      |rows| == 1 && rows[0].id == "" && rows[0].line == WAITING_ROW_TEXT
    }

    function WithoutWaiting(): Plain {
      if IsWaiting() then Plain([], searching, {}) else this
    }

    function MarkTarget(id: string, flowKey: string): Option<nat> {
      if LastOf(rows, id).Some? then LastOf(rows, id) else FirstOfFlow(rows, flowKey)
    }

    function On(e: Event): Plain {
      match e
      case Started(row) => this.(rows := rows + [row])
      case TunnelFailed(row) =>
        Plain(rows + [row], searching, if searching then lagging + {|rows|} else lagging)
      case Completed(id, status, elapsed) =>
        (match LastOf(rows, id)
         case None => this
         case Some(i) =>
           Plain(rows[i := rows[i].(status := Some(status), elapsed := Some(elapsed))], searching, {}))
      case Marked(id, flowKey, mark) =>
        (match MarkTarget(id, flowKey)
         case None => this
         case Some(i) =>
           if mark in rows[i].marks then this else this.(rows := rows[i := rows[i].(marks := rows[i].marks + [mark])]))
    }

    function OnAll(events: seq<Event>): Plain
      decreases |events|
    {
      if events == [] then this else WithoutWaiting().On(events[0]).OnAll(events[1..])
    }

    function Trimmed(): Plain {
      var n := TrimCount(|rows|);
      Plain(rows[n..], searching, if n > 0 then {} else lagging)
    }
  }

  /** The same packet, perhaps completed and with more marks by now. */
  predicate IsSamePacket(after: Row, row: Row) {
    && after.id == row.id && after.flowKey == row.flowKey && after.verb == row.verb && after.protocol == row.protocol
    && after.host == row.host && after.uri == row.uri && after.query == row.query && after.line == row.line
    && row.marks <= after.marks
  }

  /** The same packets in the same places, perhaps with more behind them. */
  ghost predicate Extends(a: seq<Row>, b: seq<Row>) {
    |a| <= |b| && forall i :: 0 <= i < |a| ==> IsSamePacket(b[i], a[i])
  }

  lemma OnExtends(plain: Plain, e: Event)
    requires !plain.IsWaiting() && e.IsValid()
    ensures Extends(plain.rows, plain.On(e).rows) && !plain.On(e).IsWaiting()
  {
  }

  /** A batch of events leaves every packet in its place. */
  lemma {:induction false} OnAllExtends(plain: Plain, events: seq<Event>)
    requires !plain.IsWaiting() && forall e :: e in events ==> e.IsValid()
    ensures Extends(plain.rows, plain.OnAll(events).rows)
    decreases |events|
  {
    hide Extends, LastOf;
    if events != [] {
      assert events[0] in events;
      OnExtends(plain, events[0]);
      OnAllExtends(plain.On(events[0]), events[1..]);
      ExtendsTrans(plain.rows, plain.On(events[0]).rows, plain.OnAll(events).rows);
    } else {
      ExtendsTrans(plain.rows, plain.rows, plain.rows);
    }
  }

  lemma ExtendsTrans(a: seq<Row>, b: seq<Row>, c: seq<Row>)
    ensures Extends(a, a)
    ensures Extends(a, b) && Extends(b, c) ==> Extends(a, c)
  {
  }

  lemma OnAllFrom(plain: Plain, events: seq<Event>, i: nat)
    requires i < |events|
    ensures plain.OnAll(events[i..]) == plain.WithoutWaiting().On(events[i]).OnAll(events[i + 1..])
  {
    assert events[i..][1..] == events[i + 1..];
  }

  // ----- what a batch makes of each row

  /** The row with its outcome filled in and everything else as it was. */
  predicate IsCompleted(after: Row, row: Row, status: U16, elapsed: int) {
    after == Row(row.id, row.flowKey, row.verb, Some(status), Some(elapsed),
                 row.protocol, row.host, row.uri, row.query, row.marks, row.line)
  }

  /** The row with the mark behind its other marks, once. */
  predicate IsMarked(after: Row, row: Row, mark: RowMark) {
    after == Row(row.id, row.flowKey, row.verb, row.status, row.elapsed, row.protocol, row.host, row.uri, row.query,
                 if mark in row.marks then row.marks else row.marks + [mark], row.line)
  }

  /** The last row with the id, or if there is none the first one of the flow. */
  ghost predicate IsMarkTarget(rows: seq<Row>, id: string, flowKey: string, i: int) {
    && 0 <= i < |rows|
    && if id != "" && exists j :: 0 <= j < |rows| && rows[j].id == id
       then rows[i].id == id && forall j :: i < j < |rows| ==> rows[j].id != id
       else rows[i].flowKey == flowKey && forall j :: 0 <= j < i ==> rows[j].flowKey != flowKey
  }

  lemma MarkTargetExactly(plain: Plain, id: string, flowKey: string)
    ensures forall i :: IsMarkTarget(plain.rows, id, flowKey, i) <==>
      plain.MarkTarget(id, flowKey).Some? && i == plain.MarkTarget(id, flowKey).value
  {
    var last := LastOf(plain.rows, id);
    if last.Some? {
      assert plain.rows[last.value].id == id;
    }
  }

  function Arrival(e: Event): seq<Row> {
    match e
    case Started(row) => [row]
    case TunnelFailed(row) => [row]
    case _ => []
  }

  /** The rows a batch brings. */
  function Arrived(events: seq<Event>): seq<Row> {
    if events == [] then [] else Arrived(events[..|events| - 1]) + Arrival(events[|events| - 1])
  }

  lemma {:induction false} ArrivedPrefix(events: seq<Event>, k: nat)
    requires k <= |events|
    ensures |Arrived(events[..k])| <= |Arrived(events)|
  {
    if k == |events| {
      assert events[..k] == events;
    } else {
      assert events[..|events| - 1][..k] == events[..k];
      ArrivedPrefix(events[..|events| - 1], k);
    }
  }

  /** The k-th event of the batch completes the packet at position p, which was there by then. */
  ghost predicate IsCompletion(rows: seq<Row>, events: seq<Event>, k: int, p: nat)
    requires p < |rows + Arrived(events)|
  {
    && 0 <= k < |events| && events[k].Completed?
    && events[k].id != "" && events[k].id == (rows + Arrived(events))[p].id
    && p < |rows| + |Arrived(events[..k])|
  }

  /** The status and time of the last completion of the packet, and if there is none those it came with. */
  ghost predicate HasOutcome(rows: seq<Row>, events: seq<Event>, p: nat, row: Row)
    requires p < |rows + Arrived(events)|
  {
    && (forall k :: IsCompletion(rows, events, k, p) && (forall j :: IsCompletion(rows, events, j, p) ==> j <= k) ==>
          row.status == Some(events[k].status) && row.elapsed == Some(events[k].elapsed))
    && ((forall k :: !IsCompletion(rows, events, k, p)) ==>
          row.status == (rows + Arrived(events))[p].status && row.elapsed == (rows + Arrived(events))[p].elapsed)
  }

  /** No later row has the same id. */
  ghost predicate IsLatest(rows: seq<Row>, p: nat) {
    p < |rows| && forall j :: p < j < |rows| ==> rows[j].id != rows[p].id
  }

  lemma {:induction false} OnAllSnoc(plain: Plain, events: seq<Event>, e: Event)
    requires !plain.IsWaiting() && (forall x :: x in events ==> x.IsValid())
    ensures plain.OnAll(events + [e]) == plain.OnAll(events).On(e) && !plain.OnAll(events).IsWaiting()
    decreases |events|
  {
    hide LastOf, Extends;
    if events != [] {
      assert events[0] in events;
      OnExtends(plain, events[0]);
      assert (events + [e])[1..] == events[1..] + [e];
      OnAllSnoc(plain.On(events[0]), events[1..], e);
    } else {
      assert ([] + [e])[1..] == [] && ([] + [e])[0] == e;
    }
  }

  lemma ArrivedSnoc(events: seq<Event>, e: Event)
    ensures Arrived(events + [e]) == Arrived(events) + Arrival(e)
  {
    assert (events + [e])[..|events|] == events;
  }

  /** Before the last event a completion was one already. */
  lemma CompletionsBefore(rows: seq<Row>, events: seq<Event>, e: Event, p: nat)
    requires p < |rows + Arrived(events)|
    ensures p < |rows + Arrived(events + [e])|
    ensures (rows + Arrived(events + [e]))[p] == (rows + Arrived(events))[p]
    ensures forall k :: k < |events| ==>
      (IsCompletion(rows, events + [e], k, p) <==> IsCompletion(rows, events, k, p))
    ensures IsCompletion(rows, events + [e], |events|, p) <==>
            e.Completed? && e.id != "" && e.id == (rows + Arrived(events))[p].id
  {
    hide Arrived, Arrival;
    var more := events + [e];
    ArrivedSnoc(events, e);
    assert more[..|events|] == events;
    forall k | 0 <= k < |events| ensures more[..k] == events[..k] {}
  }

  /** These packets, in this order. */
  ghost predicate HoldsPackets(rows: seq<Row>, all: seq<Row>) {
    |rows| == |all| && forall p :: 0 <= p < |all| ==> IsSamePacket(rows[p], all[p])
  }

  lemma OnHoldsPackets(plain: Plain, all: seq<Row>, e: Event)
    requires HoldsPackets(plain.rows, all)
    ensures HoldsPackets(plain.On(e).rows, all + Arrival(e))
  {
    hide LastOf, FirstOfFlow;
  }

  lemma {:induction false} OnAllPackets(plain: Plain, events: seq<Event>)
    requires !plain.IsWaiting() && forall x :: x in events ==> x.IsValid()
    ensures HoldsPackets(plain.OnAll(events).rows, plain.rows + Arrived(events))
    decreases |events|
  {
    hide HoldsPackets, Arrival;
    if events != [] {
      var init, e := events[..|events| - 1], events[|events| - 1];
      assert events == init + [e];
      OnAllPackets(plain, init);
      OnAllSnoc(plain, init, e);
      OnHoldsPackets(plain.OnAll(init), plain.rows + Arrived(init), e);
      assert plain.rows + Arrived(init) + Arrival(e) == plain.rows + Arrived(events);
    } else {
      NoEventPackets(plain.rows);
      assert plain.rows + [] == plain.rows;
    }
  }

  lemma NoEventPackets(rows: seq<Row>)
    ensures HoldsPackets(rows, rows)
  {
  }

  lemma LatestIsLast(rows: seq<Row>, all: seq<Row>, more: seq<Row>, p: nat)
    requires HoldsPackets(rows, all) && p < |all| && IsLatest(all + more, p) && all[p].id != ""
    ensures LastOf(rows, all[p].id) == Some(p)
  {
    hide LastOf;
    forall j | p < j < |rows| ensures rows[j].id != all[p].id {
      assert (all + more)[j].id != (all + more)[p].id;
      assert IsSamePacket(rows[j], all[j]);
    }
    assert IsSamePacket(rows[p], all[p]);
    assert rows[p].id == all[p].id;
  }

  /** One event changes the outcome of the row it completes and of no other. */
  lemma OnOutcome(plain: Plain, all: seq<Row>, e: Event, p: nat)
    requires HoldsPackets(plain.rows, all) && p < |all| && IsLatest(all + Arrival(e), p)
    ensures p < |plain.On(e).rows|
    ensures var row, after := plain.rows[p], plain.On(e).rows[p];
      if e.Completed? && e.id != "" && e.id == all[p].id
      then after.status == Some(e.status) && after.elapsed == Some(e.elapsed)
      else after.status == row.status && after.elapsed == row.elapsed
  {
    hide LastOf, FirstOfFlow, IsLatest, HoldsPackets;
    assert |plain.rows| == |all| && plain.rows[p].id == all[p].id by { PacketAt(plain.rows, all, p); }
    if all[p].id != "" {
      LatestIsLast(plain.rows, all, Arrival(e), p);
    }
  }

  lemma PacketAt(rows: seq<Row>, all: seq<Row>, p: nat)
    requires HoldsPackets(rows, all) && p < |all|
    ensures |rows| == |all| && rows[p].id == all[p].id
  {
    assert IsSamePacket(rows[p], all[p]);
  }

  lemma OutcomeStep(rows: seq<Row>, events: seq<Event>, e: Event, p: nat, before: Row, after: Row)
    requires p < |rows + Arrived(events)| && HasOutcome(rows, events, p, before)
    requires
      if e.Completed? && e.id != "" && e.id == (rows + Arrived(events))[p].id
      then after.status == Some(e.status) && after.elapsed == Some(e.elapsed)
      else after.status == before.status && after.elapsed == before.elapsed
    ensures p < |rows + Arrived(events + [e])| && HasOutcome(rows, events + [e], p, after)
  {
    hide Arrived, IsCompletion;
    CompletionsBefore(rows, events, e, p);
    BeyondIsNone(rows, events + [e], p);
    BeyondIsNone(rows, events, p);
    assert (events + [e])[|events|] == e;
  }

  lemma BeyondIsNone(rows: seq<Row>, events: seq<Event>, p: nat)
    requires p < |rows + Arrived(events)|
    ensures forall k :: IsCompletion(rows, events, k, p) ==> 0 <= k < |events| && events[k].Completed?
  {
  }

  /** A row that has just come has had no completion. */
  lemma NewRowOutcome(rows: seq<Row>, events: seq<Event>, e: Event, p: nat, row: Row)
    requires p == |rows + Arrived(events)| && Arrival(e) == [row]
    ensures p < |rows + Arrived(events + [e])| && HasOutcome(rows, events + [e], p, row)
  {
    ArrivedSnoc(events, e);
    forall k ensures !IsCompletion(rows, events + [e], k, p) {
      if 0 <= k < |events| {
        assert (events + [e])[..k] == events[..k];
        ArrivedPrefix(events, k);
      }
    }
  }

  /** Behind a batch every row has the outcome of its packet, if no later row has the same id. */
  lemma {:induction false} OnAllOutcome(plain: Plain, events: seq<Event>, p: nat)
    requires !plain.IsWaiting() && forall x :: x in events ==> x.IsValid()
    requires IsLatest(plain.rows + Arrived(events), p)
    ensures |plain.OnAll(events).rows| == |plain.rows + Arrived(events)|
    ensures HasOutcome(plain.rows, events, p, plain.OnAll(events).rows[p])
    decreases |events|, 1
  {
    hide Arrived, HasOutcome, Arrival, HoldsPackets;
    OnAllPackets(plain, events);
    PacketAt(plain.OnAll(events).rows, plain.rows + Arrived(events), p);
    if events != [] {
      var init, e := events[..|events| - 1], events[|events| - 1];
      assert events == init + [e];
      OutcomeOfLast(plain, init, e, p);
    } else {
      NoEventOutcome(plain.rows, p);
    }
  }

  lemma NoEventOutcome(rows: seq<Row>, p: nat)
    requires p < |rows|
    ensures rows + Arrived([]) == rows && HasOutcome(rows, [], p, rows[p])
  {
  }

  lemma {:induction false} OutcomeOfLast(plain: Plain, events: seq<Event>, e: Event, p: nat)
    requires !plain.IsWaiting() && forall x :: x in events + [e] ==> x.IsValid()
    requires IsLatest(plain.rows + Arrived(events + [e]), p)
    requires |plain.OnAll(events + [e]).rows| == |plain.rows + Arrived(events + [e])|
    ensures HasOutcome(plain.rows, events + [e], p, plain.OnAll(events + [e]).rows[p])
    decreases |events| + 1, 0
  {
    hide Arrived, HasOutcome, HoldsPackets, LastOf, FirstOfFlow;
    var all := plain.rows + Arrived(events);
    ArrivedSnoc(events, e);
    assert plain.rows + Arrived(events + [e]) == all + Arrival(e);
    assert forall x :: x in events ==> x in events + [e];
    OnAllPackets(plain, events);
    OnAllSnoc(plain, events, e);
    if p < |all| {
      PacketAt(plain.OnAll(events).rows, all, p);
      assert IsLatest(all, p) by { LatestBefore(all, Arrival(e), p); }
      OnAllOutcome(plain, events, p);
      OnOutcome(plain.OnAll(events), all, e, p);
      OutcomeStep(plain.rows, events, e, p, plain.OnAll(events).rows[p], plain.OnAll(events + [e]).rows[p]);
    } else {
      NewRowOutcome(plain.rows, events, e, p, plain.OnAll(events + [e]).rows[p]);
    }
  }

  lemma LatestBefore(all: seq<Row>, more: seq<Row>, p: nat)
    requires IsLatest(all + more, p) && p < |all|
    ensures IsLatest(all, p)
  {
    forall j | p < j < |all| ensures all[j].id != all[p].id {
      assert (all + more)[j].id != (all + more)[p].id;
    }
  }

  /** The rows there were and those of the batch, without the first n: the same packets in the same
      order, each with the outcome of the batch. */
  ghost predicate ShowsBatch(rows: seq<Row>, start: seq<Row>, events: seq<Event>, n: nat) {
    var all := start + Arrived(events);
    && |rows| + n == |all|
    && forall i :: 0 <= i < |rows| ==>
         && IsSamePacket(rows[i], all[i + n])
         && (IsLatest(all, i + n) ==> HasOutcome(start, events, i + n, rows[i]))
  }

  /** The same for a list that may be waiting for packets and is trimmed behind the batch. */
  ghost predicate IsAfterBatch(rows: seq<Row>, before: Plain, events: seq<Event>) {
    var start := before.WithoutWaiting().rows;
    ShowsBatch(rows, start, events, TrimCount(|start + Arrived(events)|))
  }

  lemma AllShowBatch(plain: Plain, events: seq<Event>)
    requires !plain.IsWaiting() && forall x :: x in events ==> x.IsValid()
    ensures ShowsBatch(plain.OnAll(events).rows, plain.rows, events, 0)
  {
    hide IsLatest, HasOutcome, Arrived, IsSamePacket;
    OnAllPackets(plain, events);
    var all := plain.rows + Arrived(events);
    forall p | 0 <= p < |all| && IsLatest(all, p)
      ensures HasOutcome(plain.rows, events, p, plain.OnAll(events).rows[p])
    {
      OnAllOutcome(plain, events, p);
    }
  }

  lemma TrimmedShowBatch(rows: seq<Row>, start: seq<Row>, events: seq<Event>, n: nat)
    requires ShowsBatch(rows, start, events, 0) && n <= |rows|
    ensures ShowsBatch(rows[n..], start, events, n)
  {
    hide IsLatest, HasOutcome, Arrived, IsSamePacket;
    forall i | 0 <= i < |rows| - n ensures rows[n..][i] == rows[i + n] {}
  }

  lemma BatchOutcomes(plain: Plain, events: seq<Event>)
    requires events != [] && forall x :: x in events ==> x.IsValid()
    ensures IsAfterBatch(plain.OnAll(events).Trimmed().rows, plain, events)
  {
    var ready := plain.WithoutWaiting();
    assert ready.WithoutWaiting() == ready && ready.OnAll(events) == plain.OnAll(events);
    AllShowBatch(ready, events);
    var rows := plain.OnAll(events).rows;
    TrimmedShowBatch(rows, ready.rows, events, TrimCount(|rows|));
  }

  lemma LatestIsIndexed(rows: seq<Row>, index: map<string, nat>, id: string)
    requires IndexAgrees(rows, index)
    ensures forall i :: 0 <= i < |rows| ==>
      (id != "" && rows[i].id == id && IsLatest(rows, i) <==> id in index && index[id] == i)
  {
    forall i | 0 <= i < |rows|
      ensures id != "" && rows[i].id == id && IsLatest(rows, i) <==> id in index && index[id] == i
    {
      if id in index && index[id] == i {
        forall j | i < j < |rows| ensures rows[j].id != rows[i].id {}
      }
    }
  }

  class PacketListDelegate {
    var rows: seq<Row>
    var searchRowIds: seq<string>
    var mode: Mode
    var mainSelected: nat
    var searchSelected: nat
    var selected: nat
    var searchMatcher: Option<Matcher>
    var idToRowIndex: map<string, nat>

    /** Positions of the rows appended by failed tunnels since the view was last rebuilt. */
    ghost var lagging: set<nat>

    ghost predicate Valid()
      reads this
    {
      && IndexAgrees(rows, idToRowIndex)
      && (mode.Search? <==> searchMatcher.Some?)
      && AreTunnels(rows, lagging)
      && (mode.Main? ==> lagging == {})
      && searchRowIds == (if searchMatcher.Some? then View(rows, searchMatcher.value, lagging) else [])
      && (mainSelected == 0 || mainSelected < |rows|)
      && (mode.Search? ==> searchSelected == 0 || searchSelected < |searchRowIds|)
    }

    ghost function AsPlain(): Plain
      reads this
    {
      Plain(rows, mode.Search?, lagging)
    }

    function VisibleLength(): nat
      reads this
    {
      if mode.Main? then |rows| else |searchRowIds|
    }

    function CurrentSelected(): nat
      reads this
    {
      if mode.Main? then mainSelected else searchSelected
    }

    /** The row behind a position of the displayed list. */
    function VisibleRowIndex(i: nat): Option<nat>
      reads this
    {
      if mode.Main? then if i < |rows| then Some(i) else None
      else if i < |searchRowIds| && searchRowIds[i] in idToRowIndex then Some(idToRowIndex[searchRowIds[i]])
      else None
    }

    constructor (initial: seq<Row>, selectLast: bool)
      ensures Valid() && rows == initial && mode == Main && lagging == {}
    {
      rows := initial;
      searchRowIds, mode, searchSelected, searchMatcher := [], Main, 0, None;
      mainSelected := if selectLast then Minus(|initial|, 1) else 0;
      selected := if selectLast then Minus(|initial|, 1) else 0;
      lagging := {};
      new;
      idToRowIndex := BuildIndex(initial);
    }

    static method BuildIndex(rows: seq<Row>) returns (index: map<string, nat>)
      ensures IndexAgrees(rows, index)
    {
      index := map[];
      for idx := 0 to |rows|
        invariant forall i :: 0 <= i < idx && rows[i].id != "" ==> rows[i].id in index && i <= index[rows[i].id]
        invariant forall id :: id in index ==> id != "" && index[id] < idx && rows[index[id]].id == id
      {
        if rows[idx].id != "" {
          index := index[rows[idx].id := idx];
        }
      }
    }

    static method Filter(rows: seq<Row>, m: Matcher) returns (ids: seq<string>)
      ensures ids == View(rows, m, {})
    {
      ids := [];
      for i := 0 to |rows|
        invariant ids == View(rows[..i], m, {})
      {
        assert rows[..i + 1] == rows[..i] + [rows[i]];
        ViewSnoc(rows[..i], rows[i], m, {});
        if rows[i].id != "" && Accepts(m, rows[i]) {
          ids := ids + [rows[i].id];
        }
      }
      assert rows[..|rows|] == rows;
    }

    // ----- the displayed list

    /** The displayed list has one item for every visible id, at the row the index names. */
    lemma DisplayedRows()
      requires Valid()
      ensures forall i :: 0 <= i < VisibleLength() ==>
                && VisibleRowIndex(i).Some?
                && VisibleRowIndex(i).value < |rows|
                && (mode.Search? ==> rows[VisibleRowIndex(i).value].id == searchRowIds[i])
    {
      if mode.Search? {
        ViewHasShownIds(rows, searchMatcher.value, lagging);
        forall i | 0 <= i < |searchRowIds| ensures searchRowIds[i] in idToRowIndex {
          assert searchRowIds[i] in searchRowIds;
        }
      }
    }

    // ----- selection

    method SetCurrentSelected(i: nat)
      modifies `mainSelected, `searchSelected, `selected
      ensures CurrentSelected() == i && selected == i
      ensures mode.Search? ==> mainSelected == old(mainSelected)
      ensures mode.Main? ==> searchSelected == old(searchSelected)
    {
      match mode {
        case Main => mainSelected := i;
        case Search => searchSelected := i;
      }
      selected := i;
    }

    /** Brings the selection into range; in a valid state it already is. */
    method ClampCurrentSelected()
      modifies `mainSelected, `searchSelected, `selected
      ensures CurrentSelected() == Min(old(CurrentSelected()), Minus(VisibleLength(), 1))
      ensures selected == CurrentSelected()
      ensures mode.Search? ==> mainSelected == old(mainSelected)
      ensures mode.Main? ==> searchSelected == old(searchSelected)
      ensures old(Valid()) ==> Valid() && CurrentSelected() == old(CurrentSelected())
    {
      var len := VisibleLength();
      if len == 0 {
        SetCurrentSelected(0);
        return;
      }
      SetCurrentSelected(Min(CurrentSelected(), len - 1));
    }

    method SelectRow(i: nat)
      requires Valid()
      modifies `mainSelected, `searchSelected, `selected
      ensures Valid()
      ensures CurrentSelected() == if i < VisibleLength() then i else old(CurrentSelected())
    {
      if i < VisibleLength() {
        SetCurrentSelected(i);
      }
    }

    // ----- rebuilding and trimming

    method RebuildSearchRowsIfNeeded()
      requires IndexAgrees(rows, idToRowIndex) && (mode.Search? <==> searchMatcher.Some?)
      requires mode.Main? ==> searchRowIds == [] && lagging == {}
      requires mainSelected == 0 || mainSelected < |rows|
      modifies `searchRowIds, `searchSelected, `lagging
      ensures Valid() && lagging == {}
      ensures mode.Main? ==> searchSelected == old(searchSelected)
    {
      if mode != Search {
        return;
      }
      if searchMatcher.Some? {
        searchRowIds := Filter(rows, searchMatcher.value);
        searchSelected := Min(searchSelected, Minus(|searchRowIds|, 1));
        lagging := {};
      }
    }

    /** Drops the oldest rows of a list that has grown too long. The view is exact again, and the main
        selection stays on its row if that row is kept. */
    method TrimRowsIfNeeded()
      requires Valid()
      modifies this
      ensures Valid()
      ensures mode == old(mode) && searchMatcher == old(searchMatcher)
      ensures var n := TrimCount(old(|rows|));
        && rows == old(rows)[n..]
        && mainSelected == Minus(old(mainSelected), n)
        && (old(mainSelected) >= n && mainSelected < |rows| ==> rows[mainSelected] == old(rows[mainSelected]))
        && (n == 0 ==> searchRowIds == old(searchRowIds) && searchSelected == old(searchSelected))
      ensures AsPlain() == old(AsPlain()).Trimmed()
      ensures rows == if old(|rows|) > 10_000 then old(rows)[1_000..] else old(rows)
    {
      if |rows| <= MAX_ROWS {
        return;
      }
      var drainCount := Min(TRIM_ROWS, |rows|);
      rows := rows[drainCount..];
      idToRowIndex := BuildIndex(rows);
      mainSelected := Minus(mainSelected, drainCount);
      RefilterAfterTrim();
      ClampCurrentSelected();
    }

    method RefilterAfterTrim()
      requires IndexAgrees(rows, idToRowIndex) && (mode.Search? <==> searchMatcher.Some?)
      requires mode.Main? ==> searchRowIds == [] && lagging == {}
      requires mainSelected == 0 || mainSelected < |rows|
      modifies `searchRowIds, `searchSelected, `lagging
      ensures Valid() && lagging == {}
    {
      lagging := {};
      if mode == Search {
        searchRowIds := Retain(searchRowIds, idToRowIndex);
        if searchMatcher.Some? {
          searchRowIds := Filter(rows, searchMatcher.value);
        }
        searchSelected := Min(searchSelected, Minus(|searchRowIds|, 1));
      }
    }

    static method Retain(ids: seq<string>, index: map<string, nat>) returns (kept: seq<string>)
      ensures forall id :: id in kept <==> id in ids && id in index
    {
      kept := [];
      for i := 0 to |ids|
        invariant forall id :: id in kept <==> id in ids[..i] && id in index
      {
        if ids[i] in index {
          kept := kept + [ids[i]];
        }
      }
    }

    // ----- events

    method RemoveWaitingRowIfNeeded()
      requires Valid()
      modifies this
      ensures Valid()
      ensures mode == old(mode) && searchMatcher == old(searchMatcher)
      ensures AsPlain() == old(AsPlain()).WithoutWaiting()
      ensures mainSelected == old(mainSelected)
      ensures !old(AsPlain()).IsWaiting() ==> searchSelected == old(searchSelected)
    {
      if |rows| == 1 && rows[0].id == "" && rows[0].line == WAITING_ROW_TEXT {
        rows := [];
        searchRowIds := [];
        mainSelected, searchSelected, selected := 0, 0, 0;
        lagging := {};
      }
    }

    method OnPacketStarted(row: Row)
      requires Valid() && row.id != ""
      modifies `rows, `idToRowIndex, `searchRowIds
      ensures Valid() && AsPlain() == old(AsPlain()).On(Started(row))
      ensures rows == old(rows) + [row]
      ensures idToRowIndex == old(idToRowIndex)[row.id := |old(rows)|]
    {
      hide View, IndexAgrees;
      IndexSnoc(rows, idToRowIndex, row);
      TunnelsSnoc(rows, lagging, row);
      idToRowIndex := idToRowIndex[row.id := |rows|];
      if searchMatcher.Some? { ViewSnoc(rows, row, searchMatcher.value, lagging); }
      if mode == Search && searchMatcher.Some? && Accepts(searchMatcher.value, row) {
        searchRowIds := searchRowIds + [row.id];
      }
      rows := rows + [row];
    }

    /** The view is not updated here: the row is missing from it until the next rebuild. */
    method OnTunnelFailed(row: Row)
      requires Valid() && row.id != "" && row.IsTunnel()
      modifies `rows, `idToRowIndex, `lagging
      ensures Valid() && AsPlain() == old(AsPlain()).On(TunnelFailed(row))
      ensures rows == old(rows) + [row]
      ensures searchRowIds == old(searchRowIds)
      ensures idToRowIndex == old(idToRowIndex)[row.id := |old(rows)|]
    {
      hide View, IndexAgrees;
      IndexSnoc(rows, idToRowIndex, row);
      TunnelsSnoc(rows, lagging, row);
      if searchMatcher.Some? {
        FailedTunnelLags(rows, row, searchMatcher.value, lagging);
        lagging := lagging + {|rows|};
      }
      idToRowIndex := idToRowIndex[row.id := |rows|];
      rows := rows + [row];
    }

    /** Completing a known packet fills in the outcome of its last row, touches no other, and makes the
        view exact. */
    method OnPacketCompleted(id: string, status: U16, elapsed: int)
      requires Valid()
      modifies `rows, `searchRowIds, `searchSelected, `lagging
      ensures Valid() && AsPlain() == old(AsPlain()).On(Completed(id, status, elapsed))
      ensures |rows| == |old(rows)|
      ensures forall i :: 0 <= i < |rows| ==>
        if id != "" && rows[i].id == id && IsLatest(rows, i)
        then IsCompleted(rows[i], old(rows)[i], status, elapsed)
        else rows[i] == old(rows)[i]
      ensures id in idToRowIndex && mode.Search? ==> searchRowIds == View(rows, searchMatcher.value, {})
    {
      IndexIsLast(rows, idToRowIndex, id);
      LatestIsIndexed(rows, idToRowIndex, id);
      if id !in idToRowIndex {
        return;
      }
      var i := idToRowIndex[id];
      rows := rows[i := rows[i].(status := Some(status), elapsed := Some(elapsed))];
      RebuildSearchRowsIfNeeded();
      LatestIsIndexed(rows, idToRowIndex, id);
    }

    method OnPacketMarked(id: string, flowKey: string, mark: RowMark)
      requires Valid()
      modifies `rows
      ensures Valid() && AsPlain() == old(AsPlain()).On(Marked(id, flowKey, mark))
      ensures |rows| == |old(rows)|
      ensures forall i :: 0 <= i < |rows| ==>
        if IsMarkTarget(old(rows), id, flowKey, i)
        then IsMarked(rows[i], old(rows)[i], mark)
        else rows[i] == old(rows)[i]
    {
      hide View, IndexAgrees, AreTunnels, IsMarkTarget;
      IndexIsLast(rows, idToRowIndex, id);
      MarkTargetExactly(AsPlain(), id, flowKey);
      var target := if id in idToRowIndex then Some(idToRowIndex[id]) else FirstOfFlow(rows, flowKey);
      if target.None? {
        return;
      }
      var i := target.value;
      if mark !in rows[i].marks {
        MarkKeeps(rows, idToRowIndex, i, rows[i].marks + [mark], searchMatcher, lagging);
        rows := rows[i := rows[i].(marks := rows[i].marks + [mark])];
      }
    }

    method AppendSystemLine(line: string)
      requires Valid()
      modifies this
      ensures Valid()
      ensures mode == old(mode) && searchMatcher == old(searchMatcher)
      ensures var n := TrimCount(|old(rows)| + 1);
        rows == (old(rows) + [SystemRow(line)])[n..] && mainSelected == Minus(old(mainSelected), n)
    {
      if searchMatcher.Some? { ViewSnoc(rows, SystemRow(line), searchMatcher.value, lagging); }
      IndexIgnoresUnnamed(rows, idToRowIndex, SystemRow(line));
      rows := rows + [SystemRow(line)];
      TrimRowsIfNeeded();
    }

    /** Handles the events that have come in. */
    method HandleEvents(events: seq<Event>)
      requires Valid() && forall e :: e in events ==> e.IsValid()
      modifies this
      ensures Valid() && mode == old(mode) && searchMatcher == old(searchMatcher)
      ensures AsPlain() == old(AsPlain()).OnAll(events) && mainSelected == old(mainSelected)
    {
      hide View, IndexAgrees, AreTunnels, LastOf, FirstOfFlow;
      ghost var start := AsPlain();
      assert events[0..] == events;
      for i := 0 to |events|
        invariant Valid() && mode == old(mode) && searchMatcher == old(searchMatcher)
        invariant AsPlain().OnAll(events[i..]) == start.OnAll(events)
        invariant mainSelected == old(mainSelected)
      {
        assert events[i] in events;
        OnAllFrom(AsPlain(), events, i);
        RemoveWaitingRowIfNeeded();
        match events[i] {
          case Started(row) => OnPacketStarted(row);
          case Completed(id, status, elapsed) => OnPacketCompleted(id, status, elapsed);
          case Marked(id, flowKey, mark) => OnPacketMarked(id, flowKey, mark);
          case TunnelFailed(row) => OnTunnelFailed(row);
        }
      }
      assert events[|events|..] == [];
    }

    /** One batch of events, then one trim: the rows are those of the plain list, and by validity the
        index and the view agree with them. The main selection stays on its packet if that survives. */
    method PollIncoming(events: seq<Event>)
      requires Valid() && forall e :: e in events ==> e.IsValid()
      modifies this
      ensures Valid()
      ensures mode == old(mode) && searchMatcher == old(searchMatcher)
      ensures AsPlain() == if events == [] then old(AsPlain()) else old(AsPlain()).OnAll(events).Trimmed()
      ensures var n := if events == [] then 0 else TrimCount(|old(AsPlain()).OnAll(events).rows|);
        && mainSelected == Minus(old(mainSelected), n)
        && (n <= old(mainSelected) < old(|rows|) && mainSelected < |rows| && !old(AsPlain()).IsWaiting() ==>
              IsSamePacket(rows[mainSelected], old(rows[mainSelected])))
      ensures events != [] ==> IsAfterBatch(rows, old(AsPlain()), events)
    {
      hide LastOf, FirstOfFlow, View, IndexAgrees, AreTunnels, IsSamePacket, IsAfterBatch;
      if events != [] {
        BatchOutcomes(AsPlain(), events);
      }
      if !AsPlain().IsWaiting() {
        OnAllExtends(AsPlain(), events);
      }
      HandleEvents(events);
      if events != [] {
        TrimRowsIfNeeded();
        ClampCurrentSelected();
      }
    }

    // ----- searching

    method SearchUrl(query: Query)
      requires Valid()
      modifies this
      ensures Valid()
      ensures match query
        case Blank => mode == Main && rows == old(rows)
        case BadRegex(message) => mode == old(mode) && searchMatcher == old(searchMatcher)
        case Conditions(m) =>
          && mode == Search && searchMatcher == Some(m) && rows == old(rows)
          && searchRowIds == View(rows, m, {}) && lagging == {} && searchSelected == 0
    {
      hide View, IndexAgrees;
      match query {
        case Blank => ClearSearch();
        case BadRegex(message) => AppendSystemLine("=== invalid regex: " + message + " ===");
        case Conditions(m) =>
          searchRowIds := Filter(rows, m);
          searchMatcher := Some(m);
          mode := Search;
          searchSelected := 0;
          lagging := {};
          ClampCurrentSelected();
      }
    }

    method ClearSearch()
      requires Valid()
      modifies this
      ensures Valid() && mode == Main && rows == old(rows) && mainSelected == old(mainSelected)
    {
      mode := Main;
      searchMatcher := None;
      searchRowIds := [];
      lagging := {};
      ClampCurrentSelected();
    }

    /** Leaves the search and selects the first row of a flow, if there is one. */
    method SelectFlowKey(flowKey: string)
      requires Valid()
      modifies this
      ensures Valid()
      ensures match FirstOfFlow(old(rows), flowKey)
        case None => mode == old(mode) && searchMatcher == old(searchMatcher)
        case Some(i) => mode == Main && rows == old(rows) && mainSelected == i
    {
      var target := FirstOfFlow(rows, flowKey);
      if target.None? {
        AppendSystemLine("=== search result not found in packet list: " + flowKey + " ===");
        return;
      }
      mode := Main;
      searchRowIds := [];
      searchMatcher := None;
      lagging := {};
      mainSelected := target.value;
      selected := target.value;
    }
  }

  function SystemRow(line: string): Row {
    Row("", "", "test method", None, None, "test protocol", "test host", "test url", "", [], line)
  }

  /** The first row of a flow. */
  function FirstOfFlow(rows: seq<Row>, flowKey: string): (r: Option<nat>)
    ensures r.Some? ==> r.value < |rows| && rows[r.value].flowKey == flowKey
    ensures r.Some? ==> forall i :: 0 <= i < r.value ==> rows[i].flowKey != flowKey
    ensures r.None? ==> forall i :: 0 <= i < |rows| ==> rows[i].flowKey != flowKey
  {
    if rows == [] then None
    else if rows[0].flowKey == flowKey then Some(0)
    else match FirstOfFlow(rows[1..], flowKey)
      case None => None
      case Some(i) => Some(i + 1)
  }
}
