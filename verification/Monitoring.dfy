/** Health checks: diagnosis, the history and latest views, paging, and the events of a history. */
module Monitoring {
  import opened Base
  import opened Sorting
  import opened Tables

  // ---------- One check ----------

  datatype Session =
    | ConnectionFailed(reason: string)
    | UnexpectedFailure
    | Collected(readings: Readings, commandErrors: seq<string>)

  /** Everything the network and the settings answer during one check. */
  datatype HealthProbe = HealthProbe(reachable: bool, latencyMs: Option<real>, passwordSet: bool, session: Session)

  datatype Finding = Finding(
    status: HealthStatus, latencyMs: Option<real>, readings: Readings, errorMessage: Option<string>)

  const NO_READINGS := Readings(None, None, None, None)

  /** `"; ".join(parts)` */
  function Join(parts: seq<string>): string {
    if parts == [] then "" else if |parts| == 1 then parts[0] else parts[0] + "; " + Join(parts[1..])
  }

  /** The row a check stores, decided in the order in which the check gives up. */
  function Diagnose(vendor: string, probe: HealthProbe): Finding {
    if !SupportedVendor(vendor) then
      Finding(Error, None, NO_READINGS, Some(UnsupportedMessage(vendor)))
    else if !probe.reachable then
      Finding(Down, None, NO_READINGS, Some(UNREACHABLE))
    else if !probe.passwordSet then
      Finding(Error, probe.latencyMs, NO_READINGS,
              Some(NO_CREDENTIALS))
    else match probe.session
      case ConnectionFailed(reason) => Finding(Error, probe.latencyMs, NO_READINGS, Some(reason))
      case UnexpectedFailure => Finding(Error, probe.latencyMs, NO_READINGS, Some(MONITORING_CRASHED))
      case Collected(readings, errors) =>
        Finding(Up, probe.latencyMs, readings, if errors == [] then None else Some(Join(errors)))
  }

  lemma {:induction false} JoinExact(a: seq<string>, b: seq<string>)
    requires a != [] && b != []
    ensures Join(a + b) == Join(a) + "; " + Join(b)
  {
    assert (a + b)[1..] == a[1..] + b;
    if |a| == 1 {
      assert a[1..] + b == b;
    } else {
      JoinExact(a[1..], b);
      assert a[0] + "; " + (Join(a[1..]) + "; " + Join(b)) == (a[0] + "; " + Join(a[1..])) + "; " + Join(b);
    }
  }

  lemma StatusExact(vendor: string, probe: HealthProbe)
    ensures var status, supported := Diagnose(vendor, probe).status, SupportedVendor(vendor);
            && (status == Up <==> supported && probe.reachable && probe.passwordSet && probe.session.Collected?)
            && (status == Down <==> supported && !probe.reachable)
  {
    if SupportedVendor(vendor) && probe.reachable && probe.passwordSet {
      match probe.session
      case ConnectionFailed(_) =>
      case UnexpectedFailure =>
      case Collected(_, _) =>
    }
  }

  lemma ReadingsExact(vendor: string, probe: HealthProbe)
    ensures var f, supported := Diagnose(vendor, probe), SupportedVendor(vendor);
            && f.latencyMs == (if supported && probe.reachable then probe.latencyMs else None)
            && (f.status == Up ==> probe.session.Collected? && f.readings == probe.session.readings)
            && (f.status != Up ==> f.readings == Readings(None, None, None, None))
  {
    if SupportedVendor(vendor) && probe.reachable && probe.passwordSet {
      match probe.session
      case ConnectionFailed(_) =>
      case UnexpectedFailure =>
      case Collected(_, _) =>
    }
  }

  /** The message a check stores: the reason it gave up, or the failed commands of a session that went through. */
  lemma MessageExact(vendor: string, probe: HealthProbe)
    ensures var message, supported := Diagnose(vendor, probe).errorMessage, SupportedVendor(vendor);
            && (!supported ==> message == Some(UnsupportedMessage(vendor)))
            && (supported && !probe.reachable ==> message == Some(UNREACHABLE))
            && (supported && probe.reachable && !probe.passwordSet ==> message == Some(NO_CREDENTIALS))
            && (supported && probe.reachable && probe.passwordSet ==>
                  match probe.session
                  case ConnectionFailed(reason) => message == Some(reason)
                  case UnexpectedFailure => message == Some(MONITORING_CRASHED)
                  case Collected(_, errors) => message == if errors == [] then None else Some(Join(errors)))
  {
  }

  function NewRow(id: nat, deviceId: nat, f: Finding, now: int): HealthRow {
    HealthRow(id, deviceId, f.status, f.latencyMs, f.readings, f.errorMessage, now)
  }

  // ---------- Views ----------

  /** ORDER BY checked_at DESC, id DESC */
  predicate Newer(a: HealthRow, b: HealthRow) {
    a.checkedAt > b.checkedAt || (a.checkedAt == b.checkedAt && a.id > b.id)
  }

  predicate Older(a: HealthRow, b: HealthRow) {
    Newer(b, a)
  }

  predicate DifferentIds(a: HealthRow, b: HealthRow) {
    a.id != b.id
  }

  function OfDevice(d: nat): HealthRow -> bool {
    (r: HealthRow) => r.deviceId == d
  }

  function History(rows: seq<HealthRow>, d: nat): seq<HealthRow> {
    Sort(Newer, Filter(OfDevice(d), rows))
  }

  /** OFFSET skip LIMIT limit */
  function Page<T>(listing: seq<T>, skip: nat, limit: nat): seq<T> {
    var from := if skip <= |listing| then listing[skip..] else [];
    if limit <= |from| then from[..limit] else from
  }

  /** The query `get_health_history(skip, limit)`. */
  function HistoryPage(rows: seq<HealthRow>, d: nat, skip: nat, limit: nat): seq<HealthRow> {
    Page(History(rows, d), skip, limit)
  }

  /** `.first()` of the ordered query. */
  function Latest(rows: seq<HealthRow>, d: nat): Option<HealthRow> {
    var h := History(rows, d);
    if h == [] then None else Some(h[0])
  }

  lemma HistoryOrdered(rows: seq<HealthRow>, d: nat)
    requires Pairwise(DifferentIds, rows)
    ensures Pairwise(Newer, History(rows, d))
    ensures forall r :: r in History(rows, d) <==> r in rows && r.deviceId == d
  {
    FilterPairwise(DifferentIds, OfDevice(d), rows);
    var s := Filter(OfDevice(d), rows);
    assert forall i, j :: 0 <= i < j < |s| ==> DifferentIds(s[i], s[j]);
    SortOrders(Newer, Newer, s);
  }

  /** The latest row is the one no other row of the device is newer than. */
  lemma LatestIsNewest(rows: seq<HealthRow>, d: nat, r: HealthRow)
    requires Pairwise(DifferentIds, rows)
    ensures Latest(rows, d) == Some(r)
       <==> r in rows && r.deviceId == d && forall o :: o in rows && o.deviceId == d && o != r ==> Newer(r, o)
    ensures Latest(rows, d) == None <==> forall o :: o in rows ==> o.deviceId != d
  {
    HistoryOrdered(rows, d);
    var h := History(rows, d);
    if h == [] {
      assert forall o :: o in rows && o.deviceId == d ==> o in h;
    } else {
      assert h[0] in h;
      forall o | o in rows && o.deviceId == d && o != h[0] ensures Newer(h[0], o) {
        assert o in h;
        HeadFirst(Newer, h, o);
      }
    }
  }

  /** A device without rows has no latest row; this needs no distinct ids. */
  lemma NoLatest(rows: seq<HealthRow>, d: nat)
    ensures Latest(rows, d) == None <==> forall o :: o in rows ==> o.deviceId != d
  {
    var h := History(rows, d);
    assert forall o :: o in h <==> o in rows && o.deviceId == d;
    assert h != [] ==> h[0] in h;
  }

  /** On an append-ordered history the latest row is the last one appended. */
  lemma LatestIsLast(rows: seq<HealthRow>, d: nat)
    requires Pairwise(DifferentIds, rows)
    requires Pairwise(Older, Filter(OfDevice(d), rows))
    ensures var s := Filter(OfDevice(d), rows);
            Latest(rows, d) == if s == [] then None else Some(s[|s| - 1])
  {
    var s := Filter(OfDevice(d), rows);
    if s == [] {
      assert History(rows, d) == [];
    } else {
      LastIsNewest(s);
      LatestIsNewest(rows, d, s[|s| - 1]);
    }
  }

  lemma LastIsNewest(s: seq<HealthRow>)
    requires s != [] && Pairwise(Older, s)
    ensures s[|s| - 1] in s && forall o :: o in s && o != s[|s| - 1] ==> Newer(s[|s| - 1], o)
  {
    forall o | o in s && o != s[|s| - 1] ensures Newer(s[|s| - 1], o) {
      var k :| 0 <= k < |s| && s[k] == o;
      assert Older(s[k], s[|s| - 1]);
    }
  }

  /** What a client sees that asks for pages of `size` rows until one comes back empty. */
  function PagesFrom<T>(listing: seq<T>, skip: nat, size: nat): seq<T>
    requires size > 0
    decreases |listing| - skip
  {
    var page := Page(listing, skip, size);
    if page == [] then [] else page + PagesFrom(listing, skip + size, size)
  }

  lemma {:induction false} PagesTile<T>(listing: seq<T>, skip: nat, size: nat)
    requires size > 0
    ensures PagesFrom(listing, skip, size) == if skip <= |listing| then listing[skip..] else []
    decreases |listing| - skip
  {
    if Page(listing, skip, size) != [] {
      PagesTile(listing, skip + size, size);
    }
  }

  /** Pages of any size show every row of the device exactly once, newest first. */
  lemma PagesShowEveryRowOnce(rows: seq<HealthRow>, d: nat, size: nat)
    requires size > 0 && Pairwise(DifferentIds, rows)
    ensures var shown := PagesFrom(History(rows, d), 0, size);
            && Pairwise(Newer, shown)
            && (forall r :: r in rows && r.deviceId == d ==> exists i :: 0 <= i < |shown| && shown[i] == r)
            && (forall i :: 0 <= i < |shown| ==> shown[i] in rows && shown[i].deviceId == d)
            && (forall i, j :: 0 <= i < j < |shown| ==> shown[i] != shown[j])
  {
    PagesTile(History(rows, d), 0, size);
    HistoryOrdered(rows, d);
    var shown := PagesFrom(History(rows, d), 0, size);
    assert shown == History(rows, d);
    forall i, j | 0 <= i < j < |shown| ensures shown[i] != shown[j] {
      assert Newer(shown[i], shown[j]);
    }
    forall i | 0 <= i < |shown| ensures shown[i] in rows && shown[i].deviceId == d {
      assert shown[i] in shown;
    }
  }

  // ---------- Events ----------

  predicate Bad(s: HealthStatus) {
    s != Up
  }

  /** `_dispatch_health_event` */
  function EventsFor(previous: Option<HealthStatus>, row: HealthRow): seq<Event> {
    match row.status
    case Down => [Event(DeviceDown, row.deviceId, row.id, "")]
    case Error => [Event(HealthCheckFailed, row.deviceId, row.id, "")]
    case Up =>
      if previous.Some? && Bad(previous.value) then [Event(DeviceRecovered, row.deviceId, row.id, "")] else []
  }

  function StatusOf(row: Option<HealthRow>): Option<HealthStatus> {
    if row.Some? then Some(row.value.status) else None
  }

  predicate WasBad(status: Option<HealthStatus>) {
    status.Some? && Bad(status.value)
  }

  /** Only whether the earlier status was bad matters, and only to a check that found the device up. */
  lemma SameEvents(read: Option<HealthStatus>, before: Option<HealthStatus>, row: HealthRow)
    ensures EventsFor(read, row) == EventsFor(before, row)
       <==> row.status == Up ==> (WasBad(read) <==> WasBad(before))
  {
  }

  function LastStatus(rows: seq<HealthRow>): Option<HealthStatus> {
    if rows == [] then None else Some(rows[|rows| - 1].status)
  }

  /** The trace a history calls for: each row reported against the row just before it. */
  function TraceOf(rows: seq<HealthRow>): seq<Event> {
    if rows == [] then []
    else TraceOf(rows[..|rows| - 1]) + EventsFor(LastStatus(rows[..|rows| - 1]), rows[|rows| - 1])
  }

  lemma TracePush(rows: seq<HealthRow>, row: HealthRow)
    ensures TraceOf(rows + [row]) == TraceOf(rows) + EventsFor(LastStatus(rows), row)
  {
    assert (rows + [row])[..|rows|] == rows;
  }

  predicate HealthKind(k: EventType) {
    k in {DeviceDown, DeviceRecovered, HealthCheckFailed}
  }

  function IsHealthEvent(d: nat): Event -> bool {
    (e: Event) => e.deviceId == d && HealthKind(e.kind)
  }

  function CountStatus(s: HealthStatus, rows: seq<HealthRow>): nat {
    if rows == [] then 0
    else CountStatus(s, rows[..|rows| - 1]) + (if rows[|rows| - 1].status == s then 1 else 0)
  }

  /** The number of maximal runs of rows that are down or in error. */
  function BadStretches(rows: seq<HealthRow>): nat {
    if rows == [] then 0
    else
      var before := rows[..|rows| - 1];
      var opens := Bad(rows[|rows| - 1].status) && !(LastStatus(before).Some? && Bad(LastStatus(before).value));
      BadStretches(before) + (if opens then 1 else 0)
  }

  /** Every bad row is reported, and recoveries are the bad stretches except the one still open. */
  lemma {:induction false} TraceCounts(rows: seq<HealthRow>)
    ensures Count(DeviceDown, TraceOf(rows)) == CountStatus(Down, rows)
    ensures Count(HealthCheckFailed, TraceOf(rows)) == CountStatus(Error, rows)
    ensures Count(DeviceRecovered, TraceOf(rows))
         == BadStretches(rows) - (if rows != [] && Bad(rows[|rows| - 1].status) then 1 else 0)
  {
    if rows != [] {
      var before := rows[..|rows| - 1];
      TraceCounts(before);
      CountsPush(DeviceDown, before, rows);
      CountsPush(HealthCheckFailed, before, rows);
      CountsPush(DeviceRecovered, before, rows);
    }
  }

  lemma CountsPush(k: EventType, before: seq<HealthRow>, rows: seq<HealthRow>)
    requires rows != [] && before == rows[..|rows| - 1]
    ensures var added := EventsFor(LastStatus(before), rows[|rows| - 1]);
            Count(k, TraceOf(rows)) == Count(k, TraceOf(before)) + (if added != [] && added[0].kind == k then 1 else 0)
  {
    var added := EventsFor(LastStatus(before), rows[|rows| - 1]);
    assert TraceOf(rows) == TraceOf(before) + added;
    CountPush(k, TraceOf(before), added, TraceOf(rows));
  }

  /** In the trace of a history each recovery directly follows the report of a failure; none opens with a recovery. */
  lemma {:induction false} FailureBeforeEachRecovery(rows: seq<HealthRow>, j: nat)
    requires j < |TraceOf(rows)| && TraceOf(rows)[j].kind == DeviceRecovered
    ensures j > 0 && TraceOf(rows)[j - 1].kind in {DeviceDown, HealthCheckFailed}
  {
    var before, row := rows[..|rows| - 1], rows[|rows| - 1];
    if j < |TraceOf(before)| {
      FailureBeforeEachRecovery(before, j);
    } else {
      assert LastStatus(before).Some? && Bad(LastStatus(before).value);
      assert TraceOf(before)[|TraceOf(before)| - 1]
          == EventsFor(LastStatus(before[..|before| - 1]), before[|before| - 1])[0];
    }
  }
}
