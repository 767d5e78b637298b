/** Interface checks: the latest-per-name snapshot and its filters, the previous-row lookup, and interface events. */
module Interfaces {
  import opened Base
  import opened Sorting
  import opened Tables

  // ---------- The snapshot of a device ----------

  /** ORDER BY checked_at DESC, id DESC */
  predicate Newer(a: InterfaceRow, b: InterfaceRow) {
    a.checkedAt > b.checkedAt || (a.checkedAt == b.checkedAt && a.id > b.id)
  }

  predicate Older(a: InterfaceRow, b: InterfaceRow) {
    Newer(b, a)
  }

  predicate DifferentIds(a: InterfaceRow, b: InterfaceRow) {
    a.id != b.id
  }

  function Name(r: InterfaceRow): string {
    r.iface.name
  }

  predicate ByName(a: InterfaceRow, b: InterfaceRow) {
    StringLess(Name(a), Name(b))
  }

  /** ORDER BY interface_name, checked_at DESC, id DESC */
  predicate ByNameNewestFirst(a: InterfaceRow, b: InterfaceRow) {
    ByName(a, b) || (Name(a) == Name(b) && Newer(a, b))
  }

  function OfDevice(d: nat): InterfaceRow -> bool {
    (r: InterfaceRow) => r.deviceId == d
  }

  function OfInterface(d: nat, n: string): InterfaceRow -> bool {
    (r: InterfaceRow) => r.deviceId == d && Name(r) == n
  }

  /** `r` is the newest row its device has for its interface name. */
  predicate IsLatest(rows: seq<InterfaceRow>, r: InterfaceRow) {
    r in rows && forall o :: o in rows && o.deviceId == r.deviceId && Name(o) == Name(r) && o != r ==>
      o.checkedAt < r.checkedAt || (o.checkedAt == r.checkedAt && o.id < r.id)
  }

  /** What the current state of a device means: its latest row per interface name, by name. */
  ghost predicate IsSnapshot(rows: seq<InterfaceRow>, d: nat, view: seq<InterfaceRow>) {
    && Pairwise(ByName, view)
    && forall r :: r in view <==> r.deviceId == d && IsLatest(rows, r)
  }

  lemma ByNameIsStrict()
    ensures Transitive(ByName) && Asymmetric(ByName)
    ensures Transitive(ByNameNewestFirst) && Asymmetric(ByNameNewestFirst)
  {
    forall a, b, c | ByName(a, b) && ByName(b, c) ensures ByName(a, c) {
      StringLessTransitive(Name(a), Name(b), Name(c));
    }
    forall a, b | ByName(a, b) ensures !ByName(b, a) {
      StringLessAsymmetric(Name(a), Name(b));
    }
    forall a | ByName(a, a) ensures false {
      StringLessAsymmetric(Name(a), Name(a));
    }
  }

  lemma SnapshotUnique(rows: seq<InterfaceRow>, d: nat, a: seq<InterfaceRow>, b: seq<InterfaceRow>)
    requires IsSnapshot(rows, d, a) && IsSnapshot(rows, d, b)
    ensures a == b
  {
    ByNameIsStrict();
    SortedUnique(ByName, a, b);
  }

  function Current(rows: seq<InterfaceRow>): InterfaceRow -> bool {
    (r: InterfaceRow) => IsLatest(rows, r)
  }

  function Snapshot(rows: seq<InterfaceRow>, d: nat): seq<InterfaceRow> {
    Sort(ByName, Filter(Current(rows), Filter(OfDevice(d), rows)))
  }

  lemma SnapshotIsSnapshot(rows: seq<InterfaceRow>, d: nat)
    requires Pairwise(DifferentIds, rows)
    ensures IsSnapshot(rows, d, Snapshot(rows, d))
  {
    ByNameIsStrict();
    FilterPairwise(DifferentIds, OfDevice(d), rows);
    FilterPairwise(DifferentIds, Current(rows), Filter(OfDevice(d), rows));
    var s := Filter(Current(rows), Filter(OfDevice(d), rows));
    forall i, j | 0 <= i < j < |s| && !ByName(s[j], s[i]) ensures ByName(s[i], s[j]) {
      assert s[i] in s && s[j] in s && DifferentIds(s[i], s[j]);
      StringLessTotal(Name(s[i]), Name(s[j]));
      assert Name(s[i]) != Name(s[j]) by {
        assert IsLatest(rows, s[i]) && IsLatest(rows, s[j]);
      }
    }
    SortOrders(ByName, ByName, s);
  }

  // ---------- The snapshot kept incrementally ----------

  /** One appended row changes the entry of its own interface only, and only if it is newer. */
  function Remember(latest: map<string, InterfaceRow>, r: InterfaceRow): map<string, InterfaceRow> {
    if Name(r) in latest && !Newer(r, latest[Name(r)]) then latest else latest[Name(r) := r]
  }

  function Replay(rows: seq<InterfaceRow>, d: nat): map<string, InterfaceRow> {
    if rows == [] then map[]
    else
      var before, r := Replay(rows[..|rows| - 1], d), rows[|rows| - 1];
      if r.deviceId == d then Remember(before, r) else before
  }

  lemma {:induction false} ReplayIsLatest(rows: seq<InterfaceRow>, d: nat, r: InterfaceRow)
    requires Pairwise(DifferentIds, rows)
    ensures r.deviceId == d && IsLatest(rows, r) <==> Name(r) in Replay(rows, d) && Replay(rows, d)[Name(r)] == r
  {
    if rows != [] {
      var t, x := rows[..|rows| - 1], rows[|rows| - 1];
      assert rows == t + [x];
      forall o | o in t ensures o.id != x.id {
        var k :| 0 <= k < |t| && t[k] == o;
        assert DifferentIds(rows[k], rows[|rows| - 1]);
      }
      ReplayIsLatest(t, d, r);
      ReplayNames(t, d);
      if x.deviceId != d || Name(x) != Name(r) {
        OtherRowKeepsLatest(t, d, x, r);
      } else if Name(x) !in Replay(t, d) {
        FirstRowIsLatest(t, x, r);
      } else {
        var top := Replay(t, d)[Name(x)];
        ReplayIsLatest(t, d, top);
        NewRowAgainstLatest(t, x, top, r);
      }
    }
  }

  lemma OtherRowKeepsLatest(t: seq<InterfaceRow>, d: nat, x: InterfaceRow, r: InterfaceRow)
    requires x.deviceId != d || Name(x) != Name(r)
    ensures r.deviceId == d && IsLatest(t + [x], r) <==> r.deviceId == d && IsLatest(t, r)
  {
    assert forall o :: o in t + [x] <==> o in t || o == x;
  }

  lemma FirstRowIsLatest(t: seq<InterfaceRow>, x: InterfaceRow, r: InterfaceRow)
    requires Name(x) == Name(r) && forall o :: o in t ==> o.deviceId != x.deviceId || Name(o) != Name(x)
    ensures r.deviceId == x.deviceId && IsLatest(t + [x], r) <==> r == x
  {
    assert forall o :: o in t + [x] <==> o in t || o == x;
  }

  lemma NewRowAgainstLatest(t: seq<InterfaceRow>, x: InterfaceRow, top: InterfaceRow, r: InterfaceRow)
    requires x.deviceId == top.deviceId && Name(top) == Name(x) == Name(r) && x.id != top.id && IsLatest(t, top)
    ensures r.deviceId == x.deviceId && IsLatest(t + [x], r) <==> r == if Newer(x, top) then x else top
  {
    assert forall o :: o in t + [x] <==> o in t || o == x;
    assert top in t + [x] && x in t + [x];
  }

  lemma {:induction false} ReplayNames(rows: seq<InterfaceRow>, d: nat)
    ensures forall n :: n in Replay(rows, d) ==> Name(Replay(rows, d)[n]) == n
    ensures forall n :: n in Replay(rows, d) ==> Replay(rows, d)[n] in rows && Replay(rows, d)[n].deviceId == d
    ensures forall r :: r in rows && r.deviceId == d ==> Name(r) in Replay(rows, d)
  {
    if rows != [] {
      ReplayNames(rows[..|rows| - 1], d);
    }
  }

  /** The sorted snapshot and the incrementally maintained map always hold the same rows. */
  lemma SnapshotIsReplay(rows: seq<InterfaceRow>, d: nat)
    requires Pairwise(DifferentIds, rows)
    ensures forall r :: r in Snapshot(rows, d) <==> Name(r) in Replay(rows, d) && Replay(rows, d)[Name(r)] == r
  {
    SnapshotIsSnapshot(rows, d);
    forall r ensures r in Snapshot(rows, d) <==> Name(r) in Replay(rows, d) && Replay(rows, d)[Name(r)] == r {
      ReplayIsLatest(rows, d, r);
    }
  }

  /** Each interface the device ever reported appears in the snapshot exactly once. */
  lemma SnapshotCoversEveryName(rows: seq<InterfaceRow>, d: nat, o: InterfaceRow)
    requires Pairwise(DifferentIds, rows) && o in rows && o.deviceId == d
    ensures exists i :: 0 <= i < |Snapshot(rows, d)| && Name(Snapshot(rows, d)[i]) == Name(o)
    ensures forall i, j :: 0 <= i < j < |Snapshot(rows, d)| ==> Name(Snapshot(rows, d)[i]) != Name(Snapshot(rows, d)[j])
  {
    SnapshotIsReplay(rows, d);
    SnapshotIsSnapshot(rows, d);
    ReplayNames(rows, d);
    assert Replay(rows, d)[Name(o)] in Snapshot(rows, d);
    ByNameIsStrict();
    var v := Snapshot(rows, d);
    forall i, j | 0 <= i < j < |v| ensures Name(v[i]) != Name(v[j]) {
      assert ByName(v[i], v[j]);
    }
  }

  // ---------- Filters ----------

  predicate HasErrors(i: Iface) {
    OrZero(i.inputErrors) > 0 || OrZero(i.outputErrors) > 0
  }

  predicate NoErrors(i: Iface) {
    OrZero(i.inputErrors) == 0 && OrZero(i.outputErrors) == 0
  }

  /** `(oper_status or "").lower()` */
  function OperText(i: Iface): string {
    Lower(if i.operStatus.Some? then i.operStatus.value else "")
  }

  function Passes(oper: Option<string>, errors: Option<bool>): InterfaceRow -> bool {
    (r: InterfaceRow) =>
      && (oper.Some? ==> OperText(r.iface) == Lower(oper.value))
      && (errors == Some(true) ==> HasErrors(r.iface))
      && (errors == Some(false) ==> NoErrors(r.iface))
  }

  function OperIs(text: string): InterfaceRow -> bool {
    (r: InterfaceRow) => OperText(r.iface) == Lower(text)
  }

  function Errors(wanted: bool): InterfaceRow -> bool {
    (r: InterfaceRow) => if wanted then HasErrors(r.iface) else NoErrors(r.iface)
  }

  /** The status is `down`, in whatever case. */
  predicate SaysDown(i: Iface) {
    i.operStatus.Some? && Lower(i.operStatus.value) == "down"
  }

  /** One of the two error counters is there and positive. */
  predicate CountsErrors(i: Iface) {
    || (i.inputErrors.Some? && i.inputErrors.value > 0)
    || (i.outputErrors.Some? && i.outputErrors.value > 0)
  }

  /** Each of the two error counters is missing or zero. */
  predicate CountsNoErrors(i: Iface) {
    && (i.inputErrors.Some? ==> i.inputErrors.value == 0)
    && (i.outputErrors.Some? ==> i.outputErrors.value == 0)
  }

  lemma ErrorsExact(i: Iface)
    ensures HasErrors(i) <==> CountsErrors(i)
    ensures NoErrors(i) <==> CountsNoErrors(i)
  {
  }

  /** A row passes the filters that were given: the status, in any case of letters, and the error counters. */
  predicate Selected(i: Iface, oper: Option<string>, errors: Option<bool>) {
    && (oper.Some? ==>
          if i.operStatus.Some? then Lower(i.operStatus.value) == Lower(oper.value) else oper.value == "")
    && (errors == Some(true) ==> CountsErrors(i))
    && (errors == Some(false) ==> CountsNoErrors(i))
  }

  lemma PassesExact(oper: Option<string>, errors: Option<bool>, r: InterfaceRow)
    ensures Passes(oper, errors)(r) <==> Selected(r.iface, oper, errors)
  {
    ErrorsExact(r.iface);
    assert oper.Some? ==> (Lower(oper.value) == "" <==> oper.value == "");
  }

  /** `_apply_filters` */
  method ApplyFilters(interfaces: seq<InterfaceRow>, oper: Option<string>, errors: Option<bool>)
    returns (result: seq<InterfaceRow>)
    ensures result == Filter(Passes(oper, errors), interfaces)
    ensures forall r :: r in result <==> r in interfaces && Selected(r.iface, oper, errors)
  {
    result := interfaces;
    if oper.Some? {
      result := Filter(OperIs(oper.value), result);
      FilterSame(OperIs(oper.value), Passes(oper, None), interfaces);
    } else {
      FilterAll(Passes(oper, None), interfaces);
    }
    if errors == Some(true) {
      result := Filter(Errors(true), result);
      FilterTwice(Passes(oper, None), Errors(true), Passes(oper, errors), interfaces);
    } else if errors == Some(false) {
      result := Filter(Errors(false), result);
      FilterTwice(Passes(oper, None), Errors(false), Passes(oper, errors), interfaces);
    }
    forall r ensures Passes(oper, errors)(r) <==> Selected(r.iface, oper, errors) {
      PassesExact(oper, errors, r);
    }
  }

  /**
   * The two `has_errors` answers never overlap, and together they give the whole listing back exactly when
   * every listed row has a positive counter or no negative one.
   */
  lemma ErrorFiltersPartition(view: seq<InterfaceRow>, oper: Option<string>)
    ensures forall r :: !(r in Filter(Passes(oper, Some(true)), view) && r in Filter(Passes(oper, Some(false)), view))
    ensures (forall r :: r in Filter(Passes(oper, None), view) ==>
               (r in Filter(Passes(oper, Some(true)), view) || r in Filter(Passes(oper, Some(false)), view)))
       <==> (forall r :: r in Filter(Passes(oper, None), view) ==> CountsErrors(r.iface) || CountersNatural(r.iface))
  {
    forall r | r in Filter(Passes(oper, None), view)
      ensures (r in Filter(Passes(oper, Some(true)), view) || r in Filter(Passes(oper, Some(false)), view))
         <==> CountsErrors(r.iface) || CountersNatural(r.iface)
    {
      ErrorsExact(r.iface);
      assert r in view && Passes(oper, None)(r);
    }
  }

  /** With the counters the parsers produce, the two listings also account for every row by number. */
  lemma {:induction false} ErrorFiltersCount(view: seq<InterfaceRow>, oper: Option<string>)
    requires forall r :: r in view ==> CountersNatural(r.iface)
    ensures |Filter(Passes(oper, Some(true)), view)| + |Filter(Passes(oper, Some(false)), view)|
         == |Filter(Passes(oper, None), view)|
  {
    if view != [] {
      ErrorFiltersCount(view[..|view| - 1], oper);
    }
  }

  // ---------- The previous-row lookup ----------

  function OtherRowsOf(row: InterfaceRow): InterfaceRow -> bool {
    (r: InterfaceRow) => r.deviceId == row.deviceId && Name(r) == Name(row) && r.id != row.id
  }

  /** The query of `_dispatch_interface_events`: the newest other row of the same interface. */
  function Previous(rows: seq<InterfaceRow>, row: InterfaceRow): Option<InterfaceRow> {
    var h := Sort(Newer, Filter(OtherRowsOf(row), rows));
    if h == [] then None else Some(h[0])
  }

  lemma PreviousIsNewestOther(rows: seq<InterfaceRow>, row: InterfaceRow, p: InterfaceRow)
    requires Pairwise(DifferentIds, rows)
    ensures Previous(rows, row) == Some(p)
       <==> && p in rows && p.deviceId == row.deviceId && p.iface.name == row.iface.name && p.id != row.id
            && forall o :: o in rows && OtherRowsOf(row)(o) && o != p ==>
                 o.checkedAt < p.checkedAt || (o.checkedAt == p.checkedAt && o.id < p.id)
    ensures Previous(rows, row) == None <==> forall o :: o in rows ==> !OtherRowsOf(row)(o)
  {
    var s := Filter(OtherRowsOf(row), rows);
    FilterPairwise(DifferentIds, OtherRowsOf(row), rows);
    assert forall i, j :: 0 <= i < j < |s| ==> DifferentIds(s[i], s[j]);
    SortOrders(Newer, Newer, s);
    var h := Sort(Newer, s);
    if h == [] {
      assert forall o :: o in rows && OtherRowsOf(row)(o) ==> o in h;
    } else {
      assert h[0] in h && h[0] in s;
      forall o | o in rows && OtherRowsOf(row)(o) && o != h[0] ensures Newer(h[0], o) {
        assert o in s && o in h;
        HeadFirst(Newer, h, o);
      }
    }
  }

  // ---------- Events ----------

  /** The event kinds one row can cause, given the operational status of the previous row. */
  function EventsFor(previousOper: Option<string>, row: InterfaceRow): seq<Event> {
    (if row.iface.operStatus == Some("down") then
       [Event(InterfaceDown, row.deviceId, row.id, Name(row))]
     else if row.iface.operStatus == Some("up") && previousOper == Some("down") then
       [Event(InterfaceRecovered, row.deviceId, row.id, Name(row))]
     else [])
    + (if HasErrors(row.iface) then [Event(InterfaceErrorsDetected, row.deviceId, row.id, Name(row))] else [])
  }

  /** What one row sends, by its own status and counters and the status of the row it is compared with. */
  lemma EventsExact(previousOper: Option<string>, row: InterfaceRow, e: Event)
    ensures e in EventsFor(previousOper, row) <==>
              && e.deviceId == row.deviceId && e.rowId == row.id && e.subject == row.iface.name
              && match e.kind
                 case InterfaceDown => row.iface.operStatus == Some("down")
                 case InterfaceRecovered => row.iface.operStatus == Some("up") && previousOper == Some("down")
                 case InterfaceErrorsDetected => CountsErrors(row.iface)
                 case _ => false
    ensures forall i, j :: 0 <= i < j < |EventsFor(previousOper, row)| ==>
              EventsFor(previousOper, row)[i] != EventsFor(previousOper, row)[j]
  {
    ErrorsExact(row.iface);
  }

  predicate IsUp(oper: Option<string>) {
    oper == Some("up")
  }

  predicate WasDown(oper: Option<string>) {
    oper == Some("down")
  }

  /** Only whether the earlier status was down matters, and only to a row that is up. */
  lemma SameEvents(met: Option<string>, before: Option<string>, row: InterfaceRow)
    ensures EventsFor(met, row) == EventsFor(before, row)
       <==> IsUp(row.iface.operStatus) ==> (WasDown(met) <==> WasDown(before))
  {
  }

  function OperOf(r: Option<InterfaceRow>): Option<string> {
    if r.Some? then r.value.iface.operStatus else None
  }

  /** Everything `_dispatch_interface_events` sends for a batch, looked up in the table that already holds the batch. */
  function Dispatch(rows: seq<InterfaceRow>, batch: seq<InterfaceRow>): seq<Event> {
    if batch == [] then []
    else
      Dispatch(rows, batch[..|batch| - 1])
      + EventsFor(OperOf(Previous(rows, batch[|batch| - 1])), batch[|batch| - 1])
  }

  /** One turn of the loop over the new rows. */
  lemma DispatchTurn(rows: seq<InterfaceRow>, batch: seq<InterfaceRow>, i: nat, events: seq<Event>)
    requires i < |batch|
    ensures (events + Dispatch(rows, batch[..i])) + EventsFor(OperOf(Previous(rows, batch[i])), batch[i])
         == events + Dispatch(rows, batch[..i + 1])
  {
    assert batch[..i + 1] == batch[..i] + [batch[i]];
    DispatchPush(rows, batch[..i], batch[i]);
  }

  lemma DispatchPush(rows: seq<InterfaceRow>, batch: seq<InterfaceRow>, b: InterfaceRow)
    ensures Dispatch(rows, batch + [b]) == Dispatch(rows, batch) + EventsFor(OperOf(Previous(rows, b)), b)
  {
    assert (batch + [b])[..|batch|] == batch;
  }

  function LastOper(rows: seq<InterfaceRow>): Option<string> {
    if rows == [] then None else rows[|rows| - 1].iface.operStatus
  }

  /** The trace one interface's own history calls for. */
  function TraceOf(rows: seq<InterfaceRow>): seq<Event> {
    if rows == [] then []
    else TraceOf(rows[..|rows| - 1]) + EventsFor(LastOper(rows[..|rows| - 1]), rows[|rows| - 1])
  }

  predicate InterfaceKind(k: EventType) {
    k in {InterfaceDown, InterfaceRecovered, InterfaceErrorsDetected}
  }

  function IsInterfaceEvent(d: nat, n: string): Event -> bool {
    (e: Event) => e.deviceId == d && e.subject == n && InterfaceKind(e.kind)
  }

  function LastOf(rows: seq<InterfaceRow>): Option<InterfaceRow> {
    if rows == [] then None else Some(rows[|rows| - 1])
  }

  /** When rows are appended in time order, the lookup finds the last other row of the interface in the table. */
  lemma PreviousIsLastOther(rows: seq<InterfaceRow>, row: InterfaceRow)
    requires Pairwise(DifferentIds, rows) && Pairwise(Older, Filter(OfInterface(row.deviceId, Name(row)), rows))
    ensures Previous(rows, row) == LastOf(Filter(OtherRowsOf(row), rows))
  {
    var others := Filter(OtherRowsOf(row), rows);
    FilterPairwise(Older, OtherRowsOf(row), Filter(OfInterface(row.deviceId, Name(row)), rows));
    FilterImplied(OtherRowsOf(row), OfInterface(row.deviceId, Name(row)), rows);
    if others != [] {
      LastIsNewest(others);
      NewestOther(rows, row, others, others[|others| - 1]);
    }
  }

  lemma NewestOther(rows: seq<InterfaceRow>, row: InterfaceRow, others: seq<InterfaceRow>, p: InterfaceRow)
    requires Pairwise(DifferentIds, rows) && others == Filter(OtherRowsOf(row), rows) && p in others
    requires forall o :: o in others && o != p ==> Newer(p, o)
    ensures Previous(rows, row) == Some(p)
  {
    PreviousIsNewestOther(rows, row, p);
    assert OtherRowsOf(row)(p);
    forall o | o in rows && OtherRowsOf(row)(o) && o != p ensures Newer(p, o) {
      assert o in others;
    }
  }

  lemma LastIsNewest(rows: seq<InterfaceRow>)
    requires rows != [] && Pairwise(Older, rows)
    ensures forall o :: o in rows && o != rows[|rows| - 1] ==> Newer(rows[|rows| - 1], o)
  {
    forall o | o in rows && o != rows[|rows| - 1] ensures Newer(rows[|rows| - 1], o) {
      var k :| 0 <= k < |rows| && rows[k] == o;
      assert Older(rows[k], rows[|rows| - 1]);
    }
  }

  /**
   * Within a batch, a row is compared with its true predecessor exactly when no later row of the same batch
   * carries the same name; otherwise the later twin is taken for the previous state.
   */
  lemma PredecessorUnlessTwin(rows: seq<InterfaceRow>, batch: seq<InterfaceRow>, k: nat)
    requires k < |batch| && Pairwise(DifferentIds, rows + batch)
    requires Pairwise(Older, Filter(OfInterface(batch[k].deviceId, Name(batch[k])), rows + batch))
    ensures Previous(rows + batch, batch[k])
              == LastOf(Filter(OfInterface(batch[k].deviceId, Name(batch[k])), rows + batch[..k]))
       <==> forall j :: k < j < |batch| ==> !OfInterface(batch[k].deviceId, Name(batch[k]))(batch[j])
  {
    var row, before, after := batch[k], rows + batch[..k], batch[k + 1..];
    assert rows + batch == before + [row] + after;
    PreviousAround(before, row, after);
    var same := OfInterface(row.deviceId, Name(row));
    assert forall j :: k < j < |batch| ==> batch[j] == after[j - k - 1];
    assert forall i :: 0 <= i < |after| ==> after[i] == batch[k + 1 + i];
    assert (forall o :: o in after ==> !same(o)) <==> forall j :: k < j < |batch| ==> !same(batch[j]);
  }

  /** The lookup finds the last later twin of a row, and the row of the interface just before it if there is none. */
  lemma LookupFinds(before: seq<InterfaceRow>, row: InterfaceRow, after: seq<InterfaceRow>)
    requires Pairwise(DifferentIds, before + [row] + after)
    requires Pairwise(Older, Filter(OfInterface(row.deviceId, Name(row)), before + [row] + after))
    ensures var same := OfInterface(row.deviceId, Name(row));
            Previous(before + [row] + after, row) == LastOf(Filter(same, before) + Filter(same, after))
  {
    OthersAround(before, row, after);
    PreviousIsLastOther(before + [row] + after, row);
  }

  lemma PreviousAround(before: seq<InterfaceRow>, row: InterfaceRow, after: seq<InterfaceRow>)
    requires Pairwise(DifferentIds, before + [row] + after)
    requires Pairwise(Older, Filter(OfInterface(row.deviceId, Name(row)), before + [row] + after))
    ensures Previous(before + [row] + after, row) == LastOf(Filter(OfInterface(row.deviceId, Name(row)), before))
       <==> forall o :: o in after ==> !OfInterface(row.deviceId, Name(row))(o)
  {
    OthersAround(before, row, after);
    LookupFinds(before, row, after);
    LastBeforeTwins(OfInterface(row.deviceId, Name(row)), before, after);
  }

  lemma LastBeforeTwins(same: InterfaceRow -> bool, before: seq<InterfaceRow>, after: seq<InterfaceRow>)
    requires forall o :: o in after ==> o !in before
    ensures LastOf(Filter(same, before) + Filter(same, after)) == LastOf(Filter(same, before))
       <==> forall o :: o in after ==> !same(o)
  {
    var earlier, twins := Filter(same, before), Filter(same, after);
    if twins == [] {
      assert earlier + twins == earlier;
      assert forall o :: o in after && same(o) ==> o in twins;
    } else {
      var last := twins[|twins| - 1];
      assert last in twins && last !in earlier;
      assert LastOf(earlier + twins) == Some(last);
      assert LastOf(earlier) != Some(last);
    }
  }

  lemma OthersAround(before: seq<InterfaceRow>, row: InterfaceRow, after: seq<InterfaceRow>)
    requires Pairwise(DifferentIds, before + [row] + after)
    ensures var same := OfInterface(row.deviceId, Name(row));
            Filter(OtherRowsOf(row), before + [row] + after) == Filter(same, before) + Filter(same, after)
    ensures forall o :: o in after ==> o !in before
  {
    var all := before + [row] + after;
    var same, other := OfInterface(row.deviceId, Name(row)), OtherRowsOf(row);
    forall o | o in before ensures o.id != row.id {
      var i :| 0 <= i < |before| && before[i] == o;
      assert DifferentIds(all[i], all[|before|]);
    }
    forall o | o in after ensures o.id != row.id && o !in before {
      var i :| 0 <= i < |after| && after[i] == o;
      assert DifferentIds(all[|before|], all[|before| + 1 + i]);
      forall h | 0 <= h < |before| ensures before[h] != o {
        assert DifferentIds(all[h], all[|before| + 1 + i]);
      }
    }
    FilterAppend(other, before + [row], after);
    FilterPush(other, before, row);
    FilterSame(other, same, before);
    FilterSame(other, same, after);
  }

  lemma DispatchPair(rows: seq<InterfaceRow>, a: InterfaceRow, b: InterfaceRow)
    ensures Dispatch(rows, [a, b])
         == EventsFor(OperOf(Previous(rows, a)), a) + EventsFor(OperOf(Previous(rows, b)), b)
  {
    assert [] + [a] == [a] && [a] + [b] == [a, b];
    DispatchPush(rows, [], a);
    DispatchPush(rows, [a], b);
  }

  lemma TwinsMeetEachOther(a: InterfaceRow, b: InterfaceRow)
    requires a.id != b.id && a.deviceId == b.deviceId && Name(a) == Name(b)
    ensures Previous([a, b], a) == Some(b) && Previous([a, b], b) == Some(a)
  {
    PreviousIsNewestOther([a, b], a, b);
    PreviousIsNewestOther([a, b], b, a);
  }

  /** A first check that lists one name as up and then as down reports a recovery that never happened. */
  lemma SpuriousRecovery(a: InterfaceRow, b: InterfaceRow)
    requires a.id != b.id && a.deviceId == b.deviceId && Name(a) == Name(b)
    requires a.iface.operStatus == Some("up") && b.iface.operStatus == Some("down")
    requires !HasErrors(a.iface) && !HasErrors(b.iface)
    ensures Dispatch([a, b], [a, b])
         == [Event(InterfaceRecovered, a.deviceId, a.id, Name(a)), Event(InterfaceDown, b.deviceId, b.id, Name(b))]
  {
    TwinsMeetEachOther(a, b);
    DispatchPair([a, b], a, b);
  }

  lemma TracePush(rows: seq<InterfaceRow>, row: InterfaceRow)
    ensures TraceOf(rows + [row]) == TraceOf(rows) + EventsFor(LastOper(rows), row)
  {
    assert (rows + [row])[..|rows|] == rows;
  }

  // ---------- What a trace says about its history ----------

  function CountRows(p: InterfaceRow -> bool, rows: seq<InterfaceRow>): nat {
    |Filter(p, rows)|
  }

  function IsDown(): InterfaceRow -> bool {
    (r: InterfaceRow) => r.iface.operStatus == Some("down")
  }

  function WithErrors(): InterfaceRow -> bool {
    (r: InterfaceRow) => HasErrors(r.iface)
  }

  /** The number of adjacent down-then-up pairs. */
  function Recoveries(rows: seq<InterfaceRow>): nat {
    if |rows| < 2 then 0
    else
      Recoveries(rows[..|rows| - 1])
      + (if rows[|rows| - 2].iface.operStatus == Some("down") && rows[|rows| - 1].iface.operStatus == Some("up")
         then 1 else 0)
  }

  /** One down event per down row, one recovery per adjacent down-then-up pair, one error event per row with errors. */
  lemma {:induction false} TraceCounts(rows: seq<InterfaceRow>)
    ensures Count(InterfaceDown, TraceOf(rows)) == CountRows(IsDown(), rows)
    ensures Count(InterfaceRecovered, TraceOf(rows)) == Recoveries(rows)
    ensures Count(InterfaceErrorsDetected, TraceOf(rows)) == CountRows(WithErrors(), rows)
  {
    if rows != [] {
      var before, row := rows[..|rows| - 1], rows[|rows| - 1];
      TraceCounts(before);
      var added := EventsFor(LastOper(before), row);
      KindsAdded(LastOper(before), row);
      CountAppend(InterfaceDown, TraceOf(before), added);
      CountAppend(InterfaceRecovered, TraceOf(before), added);
      CountAppend(InterfaceErrorsDetected, TraceOf(before), added);
    }
  }

  lemma KindsAdded(previous: Option<string>, row: InterfaceRow)
    ensures var added := EventsFor(previous, row);
            && Count(InterfaceDown, added) == (if IsDown()(row) then 1 else 0)
            && Count(InterfaceRecovered, added)
               == (if row.iface.operStatus == Some("up") && previous == Some("down") then 1 else 0)
            && Count(InterfaceErrorsDetected, added) == (if HasErrors(row.iface) then 1 else 0)
  {
    var added := EventsFor(previous, row);
    forall k ensures Count(k, added) == CountOf(k, added) {
      CountKinds(k, added);
    }
  }

  /** How many of at most two events are of a kind. */
  function CountOf(k: EventType, added: seq<Event>): nat {
    (if |added| > 0 && added[0].kind == k then 1 else 0) + (if |added| > 1 && added[1].kind == k then 1 else 0)
  }

  lemma CountKinds(k: EventType, added: seq<Event>)
    requires |added| <= 2
    ensures Count(k, added) == CountOf(k, added)
  {
    if |added| == 2 {
      CountAtMostOne(k, [added[0]]);
      CountAtMostOne(k, [added[1]]);
      CountAppend(k, [added[0]], [added[1]]);
      assert added == [added[0]] + [added[1]];
    } else {
      CountAtMostOne(k, added);
    }
  }

  /** Between any two recoveries of an interface a down event was sent. */
  lemma {:induction false} DownBetweenRecoveries(rows: seq<InterfaceRow>, i: nat, j: nat)
    requires i < j < |TraceOf(rows)|
    requires TraceOf(rows)[i].kind == TraceOf(rows)[j].kind == InterfaceRecovered
    ensures exists k :: i < k < j && TraceOf(rows)[k].kind == InterfaceDown
  {
    var before, row := rows[..|rows| - 1], rows[|rows| - 1];
    var t := TraceOf(before);
    var added := EventsFor(LastOper(before), row);
    assert TraceOf(rows) == t + added;
    if j < |t| {
      DownBetweenRecoveries(before, i, j);
      var k :| i < k < j && t[k].kind == InterfaceDown;
      assert TraceOf(rows)[k].kind == InterfaceDown;
    } else {
      assert j == |t| && LastOper(before) == Some("down");
      var first := |TraceOf(before[..|before| - 1])|;
      assert t[first].kind == InterfaceDown && forall k :: first < k < |t| ==> t[k].kind == InterfaceErrorsDetected;
      assert TraceOf(rows)[first].kind == InterfaceDown && i < first < j;
    }
  }
}
