/**
 * The alarm feed. `Feed` classifies every current problem once and orders the result; `TwoPass` is what the service
 * collects in its two filtered passes before a stable sort by time. The two give the same feed.
 */
module Alarms {
  import opened Base
  import opened Sorting
  import opened Tables
  import M = Monitoring
  import I = Interfaces
  import opened System
  import opened Dicts

  datatype Source = FromHealth | FromInterface

  datatype Severity = SeverityDown | SeverityError | SeverityErrorsDetected

  /** The message of an alarm, before it is rendered as text. */
  datatype Message = Text(text: string) | IsDown(name: string) | HasErrors(name: string, input: int, output: int)

  datatype Alarm = Alarm(
    source: Source, severity: Severity, deviceId: nat, hostname: string, ipAddress: string,
    message: Message, checkedAt: int)

  // ---------- The fleet ----------

  predicate ById(a: Device, b: Device) {
    a.id < b.id
  }

  function DevicesById(devices: seq<Device>): seq<Device> {
    Sort(ById, devices)
  }

  datatype Entry = Entry(device: Device, row: InterfaceRow)

  function ToEntry(d: Device): InterfaceRow -> Entry {
    (r: InterfaceRow) => Entry(d, r)
  }

  /** `get_device_interfaces` */
  function DeviceView(rows: seq<InterfaceRow>, d: nat, oper: Option<string>, errors: Option<bool>): seq<InterfaceRow> {
    Filter(I.Passes(oper, errors), I.Snapshot(rows, d))
  }

  /** `get_fleet_interfaces` over a list of devices. */
  function FleetOver(rows: seq<InterfaceRow>, devices: seq<Device>, oper: Option<string>, errors: Option<bool>)
    : seq<Entry>
  {
    if devices == [] then []
    else
      var d := devices[|devices| - 1];
      FleetOver(rows, devices[..|devices| - 1], oper, errors) + Map(ToEntry(d), DeviceView(rows, d.id, oper, errors))
  }

  lemma FleetPush(rows: seq<InterfaceRow>, devices: seq<Device>, d: Device, oper: Option<string>, errors: Option<bool>)
    ensures FleetOver(rows, devices + [d], oper, errors)
         == FleetOver(rows, devices, oper, errors) + Map(ToEntry(d), DeviceView(rows, d.id, oper, errors))
  {
    assert (devices + [d])[..|devices|] == devices;
  }

  function Fleet(s: State, oper: Option<string>, errors: Option<bool>): seq<Entry> {
    FleetOver(s.interfaces, DevicesById(s.devices), oper, errors)
  }

  function EntryPasses(oper: Option<string>, errors: Option<bool>): Entry -> bool {
    (e: Entry) => I.Passes(oper, errors)(e.row)
  }

  lemma FilterEntriesPush(d: Device, t: seq<InterfaceRow>, r: InterfaceRow, view: seq<InterfaceRow>,
                          p: InterfaceRow -> bool, q: Entry -> bool)
    requires view == t + [r] && q(Entry(d, r)) == p(r)
    requires Map(ToEntry(d), Filter(p, t)) == Filter(q, Map(ToEntry(d), t))
    ensures Map(ToEntry(d), Filter(p, view)) == Filter(q, Map(ToEntry(d), view))
  {
    MapPush(ToEntry(d), t, r);
    MapPush(ToEntry(d), Filter(p, t), r);
    FilterPush(p, t, r);
    FilterPush(q, Map(ToEntry(d), t), Entry(d, r));
  }

  lemma {:induction false} FilterEntries(d: Device, view: seq<InterfaceRow>, oper: Option<string>, errors: Option<bool>)
    ensures Map(ToEntry(d), Filter(I.Passes(oper, errors), view))
         == Filter(EntryPasses(oper, errors), Map(ToEntry(d), view))
  {
    if view != [] {
      var t, r := view[..|view| - 1], view[|view| - 1];
      FilterEntries(d, t, oper, errors);
      FilterEntriesPush(d, t, r, view, I.Passes(oper, errors), EntryPasses(oper, errors));
    }
  }

  /** Filtering each device and joining is filtering the joined fleet. */
  lemma {:induction false} FleetFiltered(
    rows: seq<InterfaceRow>, devices: seq<Device>, oper: Option<string>, errors: Option<bool>)
    ensures FleetOver(rows, devices, oper, errors)
         == Filter(EntryPasses(oper, errors), FleetOver(rows, devices, None, None))
  {
    if devices != [] {
      var d := devices[|devices| - 1];
      FleetFiltered(rows, devices[..|devices| - 1], oper, errors);
      FilterEntries(d, I.Snapshot(rows, d.id), oper, errors);
      NoFilter(I.Snapshot(rows, d.id));
      FilterAppend(EntryPasses(oper, errors), FleetOver(rows, devices[..|devices| - 1], None, None),
                   Map(ToEntry(d), DeviceView(rows, d.id, None, None)));
    }
  }

  predicate EntryOrder(a: Entry, b: Entry) {
    a.device.id < b.device.id || (a.device.id == b.device.id && I.ByName(a.row, b.row))
  }

  lemma ByIdOrders(s: State)
    requires Consistent(s)
    ensures Pairwise(ById, DevicesById(s.devices))
  {
    forall i, j | 0 <= i < j < |s.devices| && !ById(s.devices[j], s.devices[i])
      ensures ById(s.devices[i], s.devices[j])
    {
      assert DistinctDevices(s.devices[i], s.devices[j]);
    }
    SortOrders(ById, ById, s.devices);
  }

  lemma NoFilter(view: seq<InterfaceRow>)
    ensures Filter(I.Passes(None, None), view) == view
  {
    FilterAll(I.Passes(None, None), view);
  }

  /** The unfiltered view of one device, as entries. */
  function Entries(rows: seq<InterfaceRow>, d: Device): seq<Entry> {
    Map(ToEntry(d), I.Snapshot(rows, d.id))
  }

  lemma UnfilteredPush(rows: seq<InterfaceRow>, devices: seq<Device>, d: Device)
    ensures FleetOver(rows, devices + [d], None, None) == FleetOver(rows, devices, None, None) + Entries(rows, d)
  {
    FleetPush(rows, devices, d, None, None);
    NoFilter(I.Snapshot(rows, d.id));
  }

  lemma EntriesMembers(rows: seq<InterfaceRow>, d: Device)
    requires Pairwise(I.DifferentIds, rows)
    ensures Pairwise(I.ByName, I.Snapshot(rows, d.id))
    ensures forall e :: e in Entries(rows, d) <==> e.device == d && e.row.deviceId == d.id && I.IsLatest(rows, e.row)
  {
    I.SnapshotIsSnapshot(rows, d.id);
    MapEntries(d, I.Snapshot(rows, d.id));
  }

  lemma EntriesOrdered(a: seq<Entry>, d: Device, view: seq<InterfaceRow>)
    requires Pairwise(EntryOrder, a) && forall e :: e in a ==> e.device.id < d.id
    requires Pairwise(I.ByName, view)
    ensures Pairwise(EntryOrder, a + Map(ToEntry(d), view))
  {
    var b := Map(ToEntry(d), view);
    forall i, j | 0 <= i < j < |a + b| ensures EntryOrder((a + b)[i], (a + b)[j]) {
      if j < |a| {
        assert EntryOrder(a[i], a[j]);
      } else if i < |a| {
        assert a[i] in a && b[j - |a|].device == d;
      } else {
        assert I.ByName(view[i - |a|], view[j - |a|]);
      }
    }
  }

  ghost predicate FleetMembers(rows: seq<InterfaceRow>, devices: seq<Device>, fleet: seq<Entry>) {
    forall e :: e in fleet <==> (e.device in devices && e.row.deviceId == e.device.id && I.IsLatest(rows, e.row))
  }

  lemma FleetMembersPush(rows: seq<InterfaceRow>, devices: seq<Device>, d: Device, fleet: seq<Entry>)
    requires Pairwise(I.DifferentIds, rows) && FleetMembers(rows, devices, fleet)
    ensures FleetMembers(rows, devices + [d], fleet + Entries(rows, d))
  {
    EntriesMembers(rows, d);
    assert forall o :: o in devices + [d] <==> o in devices || o == d;
    assert forall e :: e in fleet + Entries(rows, d) <==> e in fleet || e in Entries(rows, d);
  }

  lemma EarlierIds(devices: seq<Device>, d: Device)
    requires devices != [] && Pairwise(ById, devices) && d in devices[..|devices| - 1]
    ensures d.id < devices[|devices| - 1].id
  {
    var k :| 0 <= k < |devices| - 1 && devices[k] == d;
    assert ById(devices[k], devices[|devices| - 1]);
  }

  /** The unfiltered fleet lists every latest row of every device once, by device id and then by name. */
  lemma {:induction false} FleetOrdered(rows: seq<InterfaceRow>, devices: seq<Device>)
    requires Pairwise(I.DifferentIds, rows) && Pairwise(ById, devices)
    ensures Pairwise(EntryOrder, FleetOver(rows, devices, None, None))
    ensures FleetMembers(rows, devices, FleetOver(rows, devices, None, None))
  {
    if devices != [] {
      var ds, d := devices[..|devices| - 1], devices[|devices| - 1];
      assert devices == ds + [d];
      FleetOrdered(rows, ds);
      var a := FleetOver(rows, ds, None, None);
      UnfilteredPush(rows, ds, d);
      FleetMembersPush(rows, ds, d, a);
      forall e | e in a ensures e.device.id < d.id {
        EarlierIds(devices, e.device);
      }
      EntriesMembers(rows, d);
      EntriesOrdered(a, d, I.Snapshot(rows, d.id));
    }
  }

  lemma MapEntries(d: Device, view: seq<InterfaceRow>)
    ensures forall e :: e in Map(ToEntry(d), view) <==> e.device == d && e.row in view
  {
    var b := Map(ToEntry(d), view);
    forall e ensures e in b <==> e.device == d && e.row in view {
      if e in b {
        var k :| 0 <= k < |b| && b[k] == e;
        assert view[k] in view;
      }
      if e.row in view {
        var k :| 0 <= k < |view| && view[k] == e.row;
        assert b[k] == Entry(d, e.row) && b[k] in b;
      }
    }
  }

  // ---------- Alarms ----------

  function HealthText(message: Option<string>, default: string): string {
    if message.Some? && message.value != "" then message.value else default
  }

  function HealthAlarm(d: Device, latest: Option<HealthRow>): Option<Alarm> {
    if latest == None then None
    else match latest.value.status
      case Up => None
      case Down =>
        Some(Alarm(FromHealth, SeverityDown, d.id, d.hostname, d.ipAddress,
                   Text(HealthText(latest.value.errorMessage, "Device is unreachable")), latest.value.checkedAt))
      case Error =>
        Some(Alarm(FromHealth, SeverityError, d.id, d.hostname, d.ipAddress,
                   Text(HealthText(latest.value.errorMessage, "Health check failed")), latest.value.checkedAt))
  }

  function DownAlarm(e: Entry): Alarm {
    Alarm(FromInterface, SeverityDown, e.device.id, e.device.hostname, e.device.ipAddress,
          IsDown(I.Name(e.row)), e.row.checkedAt)
  }

  function ErrorsAlarm(e: Entry): Alarm {
    Alarm(FromInterface, SeverityErrorsDetected, e.device.id, e.device.hostname, e.device.ipAddress,
          HasErrors(I.Name(e.row), OrZero(e.row.iface.inputErrors), OrZero(e.row.iface.outputErrors)), e.row.checkedAt)
  }

  predicate DownEntry(e: Entry) {
    I.OperText(e.row.iface) == "down"
  }

  predicate ErrorsOnlyEntry(e: Entry) {
    I.HasErrors(e.row.iface) && !DownEntry(e)
  }

  /** At most one alarm per interface: being down takes precedence over carrying errors. */
  function InterfaceAlarm(e: Entry): Option<Alarm> {
    if DownEntry(e) then Some(DownAlarm(e)) else if ErrorsOnlyEntry(e) then Some(ErrorsAlarm(e)) else None
  }

  function Rank(a: Alarm): nat {
    if a.source == FromHealth then 0 else if a.severity == SeverityDown then 1 else 2
  }

  function Subject(a: Alarm): string {
    if a.message.Text? then "" else a.message.name
  }

  /** Health before down interfaces before interfaces with errors only; then fleet position. */
  predicate PassOrder(a: Alarm, b: Alarm) {
    || Rank(a) < Rank(b)
    || (Rank(a) == Rank(b) && a.deviceId < b.deviceId)
    || (Rank(a) == Rank(b) && a.deviceId == b.deviceId && StringLess(Subject(a), Subject(b)))
  }

  predicate MoreRecent(a: Alarm, b: Alarm) {
    a.checkedAt > b.checkedAt
  }

  predicate FeedOrder(a: Alarm, b: Alarm) {
    MoreRecent(a, b) || (a.checkedAt == b.checkedAt && PassOrder(a, b))
  }

  lemma FeedOrderIsStrict()
    ensures Transitive(FeedOrder) && Asymmetric(FeedOrder)
  {
    forall a, b, c | FeedOrder(a, b) && FeedOrder(b, c) ensures FeedOrder(a, c) {
      if StringLess(Subject(a), Subject(b)) && StringLess(Subject(b), Subject(c)) {
        StringLessTransitive(Subject(a), Subject(b), Subject(c));
      }
    }
    forall a, b | FeedOrder(a, b) ensures !FeedOrder(b, a) {
      if StringLess(Subject(a), Subject(b)) {
        StringLessAsymmetric(Subject(a), Subject(b));
      }
    }
  }

  function WithLatest(rows: seq<HealthRow>): Device -> (Device, Option<HealthRow>) {
    (d: Device) => (d, M.Latest(rows, d.id))
  }

  function RowId(e: Entry): nat {
    e.row.id
  }

  predicate RowIdsDiffer(a: Entry, b: Entry) {
    a.row.id != b.row.id
  }

  lemma DifferentEntries(rows: seq<InterfaceRow>, a: Entry, b: Entry)
    requires Pairwise(I.DifferentIds, rows) && a.row in rows && b.row in rows && EntryOrder(a, b)
    requires a.row.deviceId == a.device.id && b.row.deviceId == b.device.id
    ensures RowIdsDiffer(a, b)
  {
    PairwiseMembers(I.DifferentIds, rows, a.row, b.row);
    if a.device.id == b.device.id {
      StringLessAsymmetric(I.Name(a.row), I.Name(b.row));
    }
  }

  lemma FleetIdsDiffer(rows: seq<InterfaceRow>, devices: seq<Device>)
    requires Pairwise(I.DifferentIds, rows) && Pairwise(ById, devices)
    ensures Pairwise(RowIdsDiffer, FleetOver(rows, devices, None, None))
  {
    FleetOrdered(rows, devices);
    var f := FleetOver(rows, devices, None, None);
    forall i, j | 0 <= i < j < |f| ensures RowIdsDiffer(f[i], f[j]) {
      assert f[i] in f && f[j] in f && EntryOrder(f[i], f[j]);
      DifferentEntries(rows, f[i], f[j]);
    }
  }

  // ---------- Merging the two passes by row id ----------

  predicate Erroneous(e: Entry) {
    I.HasErrors(e.row.iface)
  }

  /** The two filtered fleet queries, as selections from the unfiltered fleet. */
  lemma FilteredListings(rows: seq<InterfaceRow>, devices: seq<Device>)
    ensures FleetOver(rows, devices, Some("down"), None) == Filter(DownEntry, FleetOver(rows, devices, None, None))
    ensures FleetOver(rows, devices, None, Some(true)) == Filter(Erroneous, FleetOver(rows, devices, None, None))
  {
    var fleet := FleetOver(rows, devices, None, None);
    FleetFiltered(rows, devices, Some("down"), None);
    FleetFiltered(rows, devices, None, Some(true));
    LowerDown();
    FilterSame(EntryPasses(Some("down"), None), DownEntry, fleet);
    FilterSame(EntryPasses(None, Some(true)), Erroneous, fleet);
  }

  lemma LowerDown()
    ensures Lower("down") == "down"
  {
  }

  /** The alarms merged so far: the ones reported before, then one per entry of `part`, keyed by row id. */
  ghost predicate Merged(byId: Dict<nat, Alarm>, reported: Dict<nat, Alarm>, alarm: Entry -> Alarm, part: seq<Entry>) {
    && byId.Valid() && reported.Valid()
    && byId.keys == reported.keys + Map(RowId, part)
    && byId.Values() == reported.Values() + Map(alarm, part)
  }

  lemma MergeOne(byId: Dict<nat, Alarm>, reported: Dict<nat, Alarm>, alarm: Entry -> Alarm, part: seq<Entry>, e: Entry)
    requires Merged(byId, reported, alarm, part) && e.row.id !in byId.items
    ensures Merged(byId.Put(e.row.id, alarm(e)), reported, alarm, part + [e])
  {
    byId.PutAppends(e.row.id, alarm(e));
    MapPush(RowId, part, e);
    MapPush(alarm, part, e);
  }

  lemma KeyOrNot(byId: Dict<nat, Alarm>, reported: Dict<nat, Alarm>, part: seq<Entry>, e: Entry)
    requires Merged(byId, reported, ErrorsAlarm, part)
    ensures e.row.id in byId.items <==> e.row.id in reported.keys || e.row.id in Map(RowId, part)
  {
  }

  lemma NothingMerged(byId: Dict<nat, Alarm>, none: Dict<nat, Alarm>, alarm: Entry -> Alarm, part: seq<Entry>)
    requires none == Dict([], map[]) && Merged(byId, none, alarm, part)
    ensures byId.Valid() && byId.keys == Map(RowId, part) && byId.Values() == Map(alarm, part)
  {
  }

  lemma IdsOfPart(fleet: seq<Entry>, part: seq<Entry>, e: Entry)
    requires Pairwise(RowIdsDiffer, fleet) && e in fleet && forall x :: x in part ==> x in fleet
    ensures e.row.id in Map(RowId, part) <==> e in part
  {
    var ids := Map(RowId, part);
    if e.row.id in ids {
      var k :| 0 <= k < |ids| && ids[k] == e.row.id;
      assert part[k] in part;
      PairwiseMembers(RowIdsDiffer, fleet, e, part[k]);
    }
    if e in part {
      var k :| 0 <= k < |part| && part[k] == e;
      assert ids[k] == e.row.id;
    }
  }

  lemma NotSeenYet(es: seq<Entry>, i: nat)
    requires Pairwise(RowIdsDiffer, es) && i < |es|
    ensures es[i] !in es[..i]
  {
    assert forall k :: 0 <= k < i ==> RowIdsDiffer(es[k], es[i]);
  }

  /** An entry with errors is already keyed exactly when it is down. */
  lemma Reported(fleet: seq<Entry>, erroneous: seq<Entry>, i: nat)
    requires Pairwise(RowIdsDiffer, fleet) && erroneous == Filter(Erroneous, fleet) && i < |erroneous|
    ensures erroneous[i].row.id in Map(RowId, Filter(DownEntry, fleet)) <==> DownEntry(erroneous[i])
    ensures erroneous[i].row.id !in Map(RowId, Filter(ErrorsOnlyEntry, erroneous[..i]))
    ensures Erroneous(erroneous[i])
  {
    var e, done := erroneous[i], Filter(ErrorsOnlyEntry, erroneous[..i]);
    assert e in erroneous && e in fleet;
    IdsOfPart(fleet, Filter(DownEntry, fleet), e);
    FilterPairwise(RowIdsDiffer, Erroneous, fleet);
    NotSeenYet(erroneous, i);
    forall x | x in done ensures x in fleet {
      assert x in erroneous;
    }
    IdsOfPart(fleet, done, e);
  }

  /** One turn of the second pass: skip a reported interface, otherwise add its alarm. */
  lemma MergeErrors(
    fleet: seq<Entry>, erroneous: seq<Entry>, i: nat, byId: Dict<nat, Alarm>, reported: Dict<nat, Alarm>)
    requires Pairwise(RowIdsDiffer, fleet) && erroneous == Filter(Erroneous, fleet) && i < |erroneous|
    requires reported.Valid() && reported.keys == Map(RowId, Filter(DownEntry, fleet))
    requires Merged(byId, reported, ErrorsAlarm, Filter(ErrorsOnlyEntry, erroneous[..i]))
    ensures var e := erroneous[i];
            var next := if e.row.id in byId.items then byId else byId.Put(e.row.id, ErrorsAlarm(e));
            Merged(next, reported, ErrorsAlarm, Filter(ErrorsOnlyEntry, erroneous[..i + 1]))
  {
    var e, done := erroneous[i], Filter(ErrorsOnlyEntry, erroneous[..i]);
    Reported(fleet, erroneous, i);
    TakePush(erroneous, i);
    FilterPush(ErrorsOnlyEntry, erroneous[..i], e);
    KeyOrNot(byId, reported, done, e);
    if e.row.id !in byId.items {
      MergeOne(byId, reported, ErrorsAlarm, done, e);
    }
  }

  /** The first pass: every down interface, keyed by row id. */
  method DownAlarms(ghost fleet: seq<Entry>, downs: seq<Entry>) returns (byId: Dict<nat, Alarm>)
    requires Pairwise(RowIdsDiffer, fleet) && downs == Filter(DownEntry, fleet)
    ensures byId.Valid() && byId.keys == Map(RowId, downs) && byId.Values() == Map(DownAlarm, downs)
  {
    FilterPairwise(RowIdsDiffer, DownEntry, fleet);
    var none: Dict<nat, Alarm> := Dict([], map[]);
    byId := none;
    for i := 0 to |downs|
      invariant Merged(byId, none, DownAlarm, downs[..i])
    {
      NotSeenYet(downs, i);
      IdsOfPart(downs, downs[..i], downs[i]);
      MergeOne(byId, none, DownAlarm, downs[..i], downs[i]);
      TakePush(downs, i);
      byId := byId.Put(downs[i].row.id, DownAlarm(downs[i]));
    }
    assert downs[..|downs|] == downs;
    NothingMerged(byId, none, DownAlarm, downs);
  }

  /** The second pass: interfaces with errors, skipping the ones already reported as down. */
  method AddErrorsAlarms(ghost fleet: seq<Entry>, erroneous: seq<Entry>, reported: Dict<nat, Alarm>)
    returns (byId: Dict<nat, Alarm>)
    requires Pairwise(RowIdsDiffer, fleet) && erroneous == Filter(Erroneous, fleet)
    requires reported.Valid() && reported.keys == Map(RowId, Filter(DownEntry, fleet))
    ensures Merged(byId, reported, ErrorsAlarm, Filter(ErrorsOnlyEntry, fleet))
  {
    byId := reported;
    for i := 0 to |erroneous|
      invariant Merged(byId, reported, ErrorsAlarm, Filter(ErrorsOnlyEntry, erroneous[..i]))
    {
      MergeErrors(fleet, erroneous, i, byId, reported);
      if erroneous[i].row.id in byId.items {
        continue;
      }
      byId := byId.Put(erroneous[i].row.id, ErrorsAlarm(erroneous[i]));
    }
    assert erroneous[..|erroneous|] == erroneous;
    FilterImplied(ErrorsOnlyEntry, Erroneous, fleet);
  }

  lemma HealthPassPush(s: State, devices: seq<Device>, d: Device)
    ensures var alarm := HealthAlarm(d, M.Latest(s.health, d.id));
            HealthPass(s, devices + [d]) ==
              HealthPass(s, devices) + (if alarm.Some? then [alarm.value] else [])
  {
    assert (devices + [d])[..|devices|] == devices;
  }

  // ---------- What the feed means ----------

  /** `r` is the newest health row of the device. */
  predicate NewestHealth(s: State, d: Device, r: HealthRow) {
    && r in s.health && r.deviceId == d.id
    && forall o :: o in s.health && o.deviceId == d.id && o != r ==>
         o.checkedAt < r.checkedAt || (o.checkedAt == r.checkedAt && o.id < r.id)
  }

  /** The alarm is about the device, under its current name and address. */
  predicate About(a: Alarm, d: Device) {
    a.deviceId == d.id && a.hostname == d.hostname && a.ipAddress == d.ipAddress
  }

  /** What a health alarm says of a row that is not UP: its time, its status, and its message or the default one. */
  predicate SaysHealth(a: Alarm, d: Device, r: HealthRow) {
    && a.source == FromHealth && About(a, d) && a.checkedAt == r.checkedAt && r.status != Up
    && (a.severity == if r.status == Down then SeverityDown else SeverityError)
    && a.message.Text?
    && (if r.errorMessage.Some? && r.errorMessage.value != "" then a.message.text == r.errorMessage.value
        else a.message.text == if r.status == Down then "Device is unreachable" else "Health check failed")
  }

  ghost predicate IsHealthProblem(s: State, a: Alarm) {
    exists d, r :: d in s.devices && NewestHealth(s, d, r) && SaysHealth(a, d, r)
  }

  /** `e` is the latest row of one interface of an existing device. */
  predicate CurrentEntry(s: State, e: Entry) {
    e.device in s.devices && e.row.deviceId == e.device.id && I.IsLatest(s.interfaces, e.row)
  }

  /** What an interface alarm says of a row: its time, its name, and that it is down or else both error counters. */
  predicate SaysInterface(a: Alarm, e: Entry) {
    && a.source == FromInterface && About(a, e.device) && a.checkedAt == e.row.checkedAt
    && if I.SaysDown(e.row.iface) then
         a.severity == SeverityDown && a.message == IsDown(e.row.iface.name)
       else
         && I.CountsErrors(e.row.iface)
         && a.severity == SeverityErrorsDetected && a.message.HasErrors? && a.message.name == e.row.iface.name
         && (a.message.input == if e.row.iface.inputErrors.Some? then e.row.iface.inputErrors.value else 0)
         && (a.message.output == if e.row.iface.outputErrors.Some? then e.row.iface.outputErrors.value else 0)
  }

  ghost predicate IsInterfaceProblem(s: State, a: Alarm) {
    exists e :: CurrentEntry(s, e) && SaysInterface(a, e)
  }

  lemma NewestIsLatest(s: State, d: Device, r: HealthRow)
    requires Consistent(s)
    ensures NewestHealth(s, d, r) <==> M.Latest(s.health, d.id) == Some(r)
  {
    M.LatestIsNewest(s.health, d.id, r);
  }

  lemma HealthAlarmSays(d: Device, r: HealthRow, a: Alarm)
    ensures HealthAlarm(d, Some(r)) == Some(a) <==> SaysHealth(a, d, r)
  {
  }

  lemma HealthProblemExact(s: State, a: Alarm)
    requires Consistent(s)
    ensures IsHealthProblem(s, a) <==> exists d :: d in s.devices && HealthAlarm(d, M.Latest(s.health, d.id)) == Some(a)
  {
    if IsHealthProblem(s, a) {
      var d, r :| d in s.devices && NewestHealth(s, d, r) && SaysHealth(a, d, r);
      NewestIsLatest(s, d, r);
      HealthAlarmSays(d, r, a);
    }
    if d :| d in s.devices && HealthAlarm(d, M.Latest(s.health, d.id)) == Some(a) {
      var r := M.Latest(s.health, d.id).value;
      NewestIsLatest(s, d, r);
      HealthAlarmSays(d, r, a);
    }
  }

  lemma InterfaceAlarmSays(e: Entry, a: Alarm)
    ensures InterfaceAlarm(e) == Some(a) <==> SaysInterface(a, e)
  {
    I.ErrorsExact(e.row.iface);
    assert DownEntry(e) <==> I.SaysDown(e.row.iface);
  }

  /** The feed lists exactly the current problems, once each, in feed order. */
  ghost predicate IsFeed(s: State, feed: seq<Alarm>) {
    && Pairwise(FeedOrder, feed)
    && forall a :: a in feed <==> IsHealthProblem(s, a) || IsInterfaceProblem(s, a)
  }

  lemma FeedUnique(s: State, a: seq<Alarm>, b: seq<Alarm>)
    requires IsFeed(s, a) && IsFeed(s, b)
    ensures a == b
  {
    FeedOrderIsStrict();
    SortedUnique(FeedOrder, a, b);
  }

  // ---------- Two passes and a stable sort ----------

  function HealthPass(s: State, devices: seq<Device>): seq<Alarm> {
    if devices == [] then []
    else
      var d := devices[|devices| - 1];
      var alarm := HealthAlarm(d, M.Latest(s.health, d.id));
      HealthPass(s, devices[..|devices| - 1]) + (if alarm.Some? then [alarm.value] else [])
  }

  function DownPass(s: State): seq<Alarm> {
    Map(DownAlarm, Filter(DownEntry, Fleet(s, None, None)))
  }

  function ErrorsPass(s: State): seq<Alarm> {
    Map(ErrorsAlarm, Filter(ErrorsOnlyEntry, Fleet(s, None, None)))
  }

  function TwoPass(s: State): seq<Alarm> {
    HealthPass(s, DevicesById(s.devices)) + DownPass(s) + ErrorsPass(s)
  }

  function Feed(s: State): seq<Alarm> {
    Sort(MoreRecent, TwoPass(s))
  }

  lemma TwoPassParts(s: State, alarms: seq<Alarm>)
    requires alarms == HealthPass(s, DevicesById(s.devices)) + (DownPass(s) + ErrorsPass(s))
    ensures alarms == TwoPass(s)
  {
  }

  lemma {:induction false} HealthPassMembers(s: State, devices: seq<Device>, a: Alarm)
    ensures a in HealthPass(s, devices) <==>
              exists d :: d in devices && HealthAlarm(d, M.Latest(s.health, d.id)) == Some(a)
  {
    if devices != [] {
      var ds, d := devices[..|devices| - 1], devices[|devices| - 1];
      HealthPassMembers(s, ds, a);
      assert forall o :: o in devices <==> o in ds || o == d;
    }
  }

  lemma HealthPassBefore(s: State, devices: seq<Device>, a: Alarm)
    requires devices != [] && Pairwise(ById, devices) && a in HealthPass(s, devices[..|devices| - 1])
    ensures a.deviceId < devices[|devices| - 1].id && Rank(a) == 0
  {
    var ds := devices[..|devices| - 1];
    HealthPassMembers(s, ds, a);
    var o :| o in ds && HealthAlarm(o, M.Latest(s.health, o.id)) == Some(a);
    EarlierIds(devices, o);
  }

  lemma {:induction false} HealthPassOrdered(s: State, devices: seq<Device>)
    requires Pairwise(ById, devices)
    ensures Pairwise(PassOrder, HealthPass(s, devices))
    ensures forall a :: a in HealthPass(s, devices) ==> Rank(a) == 0
  {
    if devices != [] {
      var ds, d := devices[..|devices| - 1], devices[|devices| - 1];
      HealthPassOrdered(s, ds);
      var h, alarm := HealthPass(s, ds), HealthAlarm(d, M.Latest(s.health, d.id));
      if alarm.Some? {
        forall a | a in h ensures PassOrder(a, alarm.value) {
          HealthPassBefore(s, devices, a);
        }
        PairwisePush(PassOrder, h, alarm.value);
      }
    }
  }

  lemma EntryPassMembers(p: Entry -> bool, alarm: Entry -> Alarm, fleet: seq<Entry>, a: Alarm)
    ensures a in Map(alarm, Filter(p, fleet)) <==> exists e :: e in fleet && p(e) && alarm(e) == a
  {
    var es := Filter(p, fleet);
    var alarms := Map(alarm, es);
    if a in alarms {
      var k :| 0 <= k < |alarms| && alarms[k] == a;
      assert es[k] in es && alarm(es[k]) == a;
    }
    if e :| e in fleet && p(e) && alarm(e) == a {
      assert e in es;
      var k :| 0 <= k < |es| && es[k] == e;
      assert alarms[k] == a;
    }
  }

  lemma EntryPassOrdered(p: Entry -> bool, alarm: Entry -> Alarm, fleet: seq<Entry>, rank: nat)
    requires Pairwise(EntryOrder, fleet)
    requires forall e ::
      Rank(alarm(e)) == rank && alarm(e).deviceId == e.device.id && Subject(alarm(e)) == I.Name(e.row)
    ensures Pairwise(PassOrder, Map(alarm, Filter(p, fleet)))
    ensures forall a :: a in Map(alarm, Filter(p, fleet)) ==> Rank(a) == rank
  {
    FilterPairwise(EntryOrder, p, fleet);
    var es := Filter(p, fleet);
    var alarms := Map(alarm, es);
    forall i, j | 0 <= i < j < |alarms| ensures PassOrder(alarms[i], alarms[j]) {
      assert EntryOrder(es[i], es[j]);
    }
  }

  lemma InterfacePassMembers(s: State, a: Alarm)
    requires Consistent(s)
    ensures a in DownPass(s) || a in ErrorsPass(s) <==> exists e :: CurrentEntry(s, e) && InterfaceAlarm(e) == Some(a)
  {
    var fleet := Fleet(s, None, None);
    ByIdOrders(s);
    FleetOrdered(s.interfaces, DevicesById(s.devices));
    EntryPassMembers(DownEntry, DownAlarm, fleet, a);
    EntryPassMembers(ErrorsOnlyEntry, ErrorsAlarm, fleet, a);
    if a in DownPass(s) {
      var x :| x in fleet && DownEntry(x) && DownAlarm(x) == a;
      assert CurrentEntry(s, x) && InterfaceAlarm(x) == Some(a);
    }
    if a in ErrorsPass(s) {
      var x :| x in fleet && ErrorsOnlyEntry(x) && ErrorsAlarm(x) == a;
      assert CurrentEntry(s, x) && InterfaceAlarm(x) == Some(a);
    }
    if x :| CurrentEntry(s, x) && InterfaceAlarm(x) == Some(a) {
      assert x in fleet;
    }
  }

  lemma InterfaceProblemExact(s: State, a: Alarm)
    ensures IsInterfaceProblem(s, a) <==> exists e :: CurrentEntry(s, e) && InterfaceAlarm(e) == Some(a)
  {
    if e :| CurrentEntry(s, e) && SaysInterface(a, e) {
      InterfaceAlarmSays(e, a);
    }
    if e :| CurrentEntry(s, e) && InterfaceAlarm(e) == Some(a) {
      InterfaceAlarmSays(e, a);
    }
  }

  lemma DownPassOrdered(s: State)
    requires Pairwise(EntryOrder, Fleet(s, None, None))
    ensures Pairwise(PassOrder, DownPass(s)) && forall a :: a in DownPass(s) ==> Rank(a) == 1
  {
    EntryPassOrdered(DownEntry, DownAlarm, Fleet(s, None, None), 1);
  }

  lemma ErrorsPassOrdered(s: State)
    requires Pairwise(EntryOrder, Fleet(s, None, None))
    ensures Pairwise(PassOrder, ErrorsPass(s)) && forall a :: a in ErrorsPass(s) ==> Rank(a) == 2
  {
    EntryPassOrdered(ErrorsOnlyEntry, ErrorsAlarm, Fleet(s, None, None), 2);
  }

  lemma TwoPassMembers(s: State, a: Alarm)
    requires Consistent(s)
    ensures a in TwoPass(s) <==> IsHealthProblem(s, a) || IsInterfaceProblem(s, a)
  {
    HealthPassMembers(s, DevicesById(s.devices), a);
    HealthProblemExact(s, a);
    InterfacePassMembers(s, a);
    InterfaceProblemExact(s, a);
    assert forall d :: d in DevicesById(s.devices) <==> d in s.devices;
    InThree(HealthPass(s, DevicesById(s.devices)), DownPass(s), ErrorsPass(s), a);
  }

  lemma InThree(h: seq<Alarm>, d: seq<Alarm>, e: seq<Alarm>, a: Alarm)
    ensures a in h + d + e <==> a in h || a in d || a in e
  {
  }

  /** Both passes together list every problem once, in pass order. */
  lemma TwoPassOrdered(s: State)
    requires Consistent(s)
    ensures Pairwise(PassOrder, TwoPass(s))
    ensures forall a :: a in TwoPass(s) <==> IsHealthProblem(s, a) || IsInterfaceProblem(s, a)
  {
    ByIdOrders(s);
    HealthPassOrdered(s, DevicesById(s.devices));
    FleetOrdered(s.interfaces, DevicesById(s.devices));
    DownPassOrdered(s);
    ErrorsPassOrdered(s);
    RanksConcatenate(HealthPass(s, DevicesById(s.devices)), DownPass(s), ErrorsPass(s));
    forall a ensures a in TwoPass(s) <==> IsHealthProblem(s, a) || IsInterfaceProblem(s, a) {
      TwoPassMembers(s, a);
    }
  }

  lemma RanksConcatenate(h: seq<Alarm>, d: seq<Alarm>, e: seq<Alarm>)
    requires Pairwise(PassOrder, h) && Pairwise(PassOrder, d) && Pairwise(PassOrder, e)
    requires forall a :: a in h ==> Rank(a) == 0
    requires forall a :: a in d ==> Rank(a) == 1
    requires forall a :: a in e ==> Rank(a) == 2
    ensures Pairwise(PassOrder, h + d + e)
  {
    assert forall i :: 0 <= i < |h| ==> h[i] in h;
    assert forall i :: 0 <= i < |d| ==> d[i] in d;
    assert forall i :: 0 <= i < |e| ==> e[i] in e;
  }

  /** The stable sort of the two passes is the feed: every current problem once, in feed order. */
  lemma FeedIsFeed(s: State)
    requires Consistent(s)
    ensures IsFeed(s, Feed(s))
  {
    TwoPassOrdered(s);
    FeedOrderIsStrict();
    var l := TwoPass(s);
    forall i, j | 0 <= i < j < |l| && !MoreRecent(l[j], l[i]) ensures FeedOrder(l[i], l[j]) {
      assert PassOrder(l[i], l[j]);
    }
    SortOrders(MoreRecent, FeedOrder, l);
  }

  // ---------- What a reader of the feed can rely on ----------

  lemma SourceTellsProblem(s: State, a: Alarm)
    ensures IsHealthProblem(s, a) ==> a.source == FromHealth
    ensures IsInterfaceProblem(s, a) ==> a.source == FromInterface
  {
  }

  lemma OneHealthAlarm(d: Device, r: HealthRow, a: Alarm, b: Alarm)
    requires SaysHealth(a, d, r) && SaysHealth(b, d, r)
    ensures a == b
  {
  }

  lemma OneInterfaceAlarm(e: Entry, a: Alarm, b: Alarm)
    requires SaysInterface(a, e) && SaysInterface(b, e)
    ensures a == b
  {
  }

  lemma OneHealthProblemPerDevice(s: State, a: Alarm, b: Alarm)
    requires Consistent(s) && IsHealthProblem(s, a) && IsHealthProblem(s, b) && a.deviceId == b.deviceId
    ensures a == b
  {
    var d, r :| d in s.devices && NewestHealth(s, d, r) && SaysHealth(a, d, r);
    var e, q :| e in s.devices && NewestHealth(s, e, q) && SaysHealth(b, e, q);
    SameId(s.devices, d, e);
    assert r == q;
    OneHealthAlarm(d, r, a, b);
  }

  lemma OneLatest(rows: seq<InterfaceRow>, a: InterfaceRow, b: InterfaceRow)
    requires I.IsLatest(rows, a) && I.IsLatest(rows, b) && a.deviceId == b.deviceId && I.Name(a) == I.Name(b)
    ensures a == b
  {
  }

  lemma OneProblemPerInterface(s: State, a: Alarm, b: Alarm)
    requires Consistent(s) && IsInterfaceProblem(s, a) && IsInterfaceProblem(s, b)
    requires a.deviceId == b.deviceId && Subject(a) == Subject(b)
    ensures a == b
  {
    var x :| CurrentEntry(s, x) && SaysInterface(a, x);
    var y :| CurrentEntry(s, y) && SaysInterface(b, y);
    SameId(s.devices, x.device, y.device);
    OneLatest(s.interfaces, x.row, y.row);
    OneInterfaceAlarm(x, a, b);
  }

  /** No interface is reported twice, and neither is the health of a device. */
  lemma NoProblemTwice(s: State, feed: seq<Alarm>, i: nat, j: nat)
    requires Consistent(s) && IsFeed(s, feed) && i < j < |feed|
    ensures feed[i].source != feed[j].source || feed[i].deviceId != feed[j].deviceId
         || (feed[i].source == FromInterface && Subject(feed[i]) != Subject(feed[j]))
  {
    FeedOrderIsStrict();
    var a, b := feed[i], feed[j];
    assert a in feed && b in feed && FeedOrder(a, b) && !FeedOrder(b, a);
    if a.source == b.source && a.deviceId == b.deviceId && (a.source == FromInterface ==> Subject(a) == Subject(b)) {
      SourceTellsProblem(s, a);
      SourceTellsProblem(s, b);
      if a.source == FromHealth {
        OneHealthProblemPerDevice(s, a, b);
      } else {
        OneProblemPerInterface(s, a, b);
      }
    }
  }

  /** A smaller limit shows a prefix of what a larger one shows, and what it drops is no newer than what it keeps. */
  lemma LimitDropsOldest(s: State, feed: seq<Alarm>, small: nat, large: nat)
    requires IsFeed(s, feed) && small <= large
    ensures |SliceTo(feed, small)| == if small <= |feed| then small else |feed|
    ensures SliceTo(feed, small) <= SliceTo(feed, large) <= feed
    ensures forall i, j :: 0 <= i < |SliceTo(feed, small)| <= j < |feed| ==> feed[i].checkedAt >= feed[j].checkedAt
    ensures |feed| <= large ==> SliceTo(feed, large) == feed
    ensures small > 0 ==> SliceTo(feed, -(small as int)) == feed[..if small <= |feed| then |feed| - small else 0]
  {
    forall i, j | 0 <= i < |SliceTo(feed, small)| <= j < |feed| ensures feed[i].checkedAt >= feed[j].checkedAt {
      assert FeedOrder(feed[i], feed[j]);
    }
  }

  /** Every alarm is about a device that exists, under its current name and address. */
  lemma AlarmsNameExistingDevices(s: State, feed: seq<Alarm>, a: Alarm)
    requires IsFeed(s, feed) && a in feed
    ensures exists d :: d in s.devices && a.deviceId == d.id && a.hostname == d.hostname && a.ipAddress == d.ipAddress
  {
    if IsHealthProblem(s, a) {
      var d, r :| d in s.devices && NewestHealth(s, d, r) && SaysHealth(a, d, r);
      assert d in s.devices && About(a, d);
    } else {
      var x :| CurrentEntry(s, x) && SaysInterface(a, x);
      assert x.device in s.devices && About(a, x.device);
    }
  }

  lemma LatestAfterStore(rows: seq<HealthRow>, row: HealthRow)
    requires Pairwise(M.DifferentIds, rows + [row])
    requires forall o :: o in rows && o.deviceId == row.deviceId ==> o.checkedAt <= row.checkedAt && o.id < row.id
    ensures M.Latest(rows + [row], row.deviceId) == Some(row)
  {
    assert forall o :: o in rows + [row] <==> o in rows || o == row;
    M.LatestIsNewest(rows + [row], row.deviceId, row);
  }

  lemma AlarmMeansNotUp(s: State, d: nat, a: Alarm)
    requires Consistent(s) && IsHealthProblem(s, a) && a.deviceId == d
    ensures M.Latest(s.health, d).Some? && M.Latest(s.health, d).value.status != Up
  {
    var e, r :| e in s.devices && NewestHealth(s, e, r) && SaysHealth(a, e, r);
    NewestIsLatest(s, e, r);
  }

  lemma NotUpMeansAlarm(s: State, d: Device) returns (a: Alarm)
    requires Consistent(s) && d in s.devices
    requires M.Latest(s.health, d.id).Some? && M.Latest(s.health, d.id).value.status != Up
    ensures IsHealthProblem(s, a) && a.source == FromHealth && a.deviceId == d.id
  {
    var r := M.Latest(s.health, d.id).value;
    a := HealthAlarm(d, Some(r)).value;
    NewestIsLatest(s, d, r);
    HealthAlarmSays(d, r, a);
  }

  /** A device has a health alarm exactly when its latest row is not UP. */
  lemma AlarmIffNotUp(s: State, d: nat, feed: seq<Alarm>)
    requires Consistent(s) && HasDevice(s.devices, d) && IsFeed(s, feed)
    ensures (exists a :: a in feed && a.source == FromHealth && a.deviceId == d)
       <==> M.Latest(s.health, d).Some? && M.Latest(s.health, d).value.status != Up
  {
    if a :| a in feed && a.source == FromHealth && a.deviceId == d {
      SourceTellsProblem(s, a);
      AlarmMeansNotUp(s, d, a);
    }
    if M.Latest(s.health, d).Some? && M.Latest(s.health, d).value.status != Up {
      var device :| device in s.devices && device.id == d;
      var a := NotUpMeansAlarm(s, device);
      assert a in feed;
    }
  }

  /** Right after a health check the device has a health alarm exactly when the check did not find it up. */
  lemma AlarmAfterCheck(s: State, row: HealthRow, feed: seq<Alarm>)
    requires Consistent(s) && HasDevice(s.devices, row.deviceId) && row.id == s.nextHealth
    requires forall o :: o in s.health && o.deviceId == row.deviceId ==> o.checkedAt <= row.checkedAt
    requires IsFeed(StoreHealth(s, row), feed)
    ensures (exists a :: a in feed && a.source == FromHealth && a.deviceId == row.deviceId) <==> row.status != Up
  {
    HealthKeeps(s, row);
    LatestAfterStore(s.health, row);
    AlarmIffNotUp(StoreHealth(s, row), row.deviceId, feed);
  }
}
