/**
 * The services as they run: one store whose tables the methods update in place. Every method is proved against the
 * views and steps of the other modules.
 */
module Database {
  import opened Base
  import opened Sorting
  import opened Tables
  import opened Dicts
  import M = Monitoring
  import I = Interfaces
  import opened Storage
  import opened System
  import Adapters
  import A = Alarms
  import O = Outcomes
  import opened Jobs

  /** Setdefault over name-grouped, newest-first rows leaves the latest row of each name. */
  ghost predicate FirstPerName(rows: seq<InterfaceRow>, latest: Dict<string, InterfaceRow>) {
    && (forall n :: n in latest.items ==> latest.items[n] in rows && I.Name(latest.items[n]) == n)
    && (forall r :: r in rows ==>
          && I.Name(r) in latest.items
          && (latest.items[I.Name(r)] == r || I.Newer(latest.items[I.Name(r)], r)))
  }

  lemma FirstPerNameStep(rows: seq<InterfaceRow>, i: nat, latest: Dict<string, InterfaceRow>)
    requires i < |rows| && Pairwise(I.ByNameNewestFirst, rows)
    requires latest.Valid() && FirstPerName(rows[..i], latest)
    ensures FirstPerName(rows[..i + 1], latest.SetDefault(I.Name(rows[i]), rows[i]))
  {
    var r := rows[i];
    assert rows[..i + 1] == rows[..i] + [r];
    if I.Name(r) in latest.items {
      var first := latest.items[I.Name(r)];
      assert first in rows[..i];
      var k :| 0 <= k < i && rows[k] == first;
      assert I.ByNameNewestFirst(rows[k], rows[i]);
      if I.ByName(first, r) {
        StringLessAsymmetric(I.Name(first), I.Name(r));
      }
    }
  }

  lemma ValuesAreLatest(table: seq<InterfaceRow>, d: nat, rows: seq<InterfaceRow>, latest: Dict<string, InterfaceRow>)
    requires latest.Valid() && FirstPerName(rows, latest)
    requires forall r :: r in rows <==> r in table && r.deviceId == d
    ensures I.IsSnapshot(table, d, Sort(I.ByName, latest.Values()))
  {
    var v := latest.Values();
    forall r ensures r in v <==> r.deviceId == d && I.IsLatest(table, r) {
      if r in v {
        var k :| 0 <= k < |v| && v[k] == r;
        assert latest.keys[k] in latest.keys;
        assert latest.items[I.Name(r)] == r && r in rows;
      }
      if r.deviceId == d && I.IsLatest(table, r) {
        assert r in rows;
        var top := latest.items[I.Name(r)];
        assert top in rows && top == r;
        assert I.Name(r) in latest.keys;
        var k :| 0 <= k < |latest.keys| && latest.keys[k] == I.Name(r);
        assert v[k] == r;
      }
    }
    forall i, j | 0 <= i < j < |v| && !I.ByName(v[j], v[i]) ensures I.ByName(v[i], v[j]) {
      assert latest.keys[i] in latest.keys && latest.keys[j] in latest.keys;
      assert I.Name(v[i]) == latest.keys[i] && I.Name(v[j]) == latest.keys[j];
      StringLessTotal(I.Name(v[i]), I.Name(v[j]));
    }
    I.ByNameIsStrict();
    SortOrders(I.ByName, I.ByName, v);
  }

  lemma OrderedRows(table: seq<InterfaceRow>, d: nat)
    requires Pairwise(I.DifferentIds, table)
    ensures Pairwise(I.ByNameNewestFirst, Sort(I.ByNameNewestFirst, Filter(I.OfDevice(d), table)))
  {
    var s := Filter(I.OfDevice(d), table);
    FilterPairwise(I.DifferentIds, I.OfDevice(d), table);
    I.ByNameIsStrict();
    forall i, j | 0 <= i < j < |s| && !I.ByNameNewestFirst(s[j], s[i]) ensures I.ByNameNewestFirst(s[i], s[j]) {
      assert I.DifferentIds(s[i], s[j]);
      StringLessTotal(I.Name(s[i]), I.Name(s[j]));
    }
    SortOrders(I.ByNameNewestFirst, I.ByNameNewestFirst, s);
  }

  class Store {
    var devices: seq<Device>
    var health: seq<HealthRow>
    var interfaces: seq<InterfaceRow>
    var backups: seq<BackupRow>
    var writes: seq<Write>
    var events: seq<Event>
    var nextDevice: nat
    var nextHealth: nat
    var nextInterface: nat
    var nextBackup: nat

    ghost function Contents(): State
      reads this
    {
      State(devices, health, interfaces, backups, writes, events, nextDevice, nextHealth, nextInterface, nextBackup)
    }

    constructor ()
      ensures Contents() == EMPTY
    {
      devices, health, interfaces, backups, writes, events := [], [], [], [], [], [];
      nextDevice, nextHealth, nextInterface, nextBackup := 1, 1, 1, 1;
    }

    // ---------- Views ----------

    method GetDeviceInterfaces(deviceId: nat, oper: Option<string>, errors: Option<bool>)
      returns (results: seq<InterfaceRow>)
      requires Pairwise(I.DifferentIds, interfaces)
      ensures results == A.DeviceView(interfaces, deviceId, oper, errors)
      ensures forall r :: r in results <==>
                r.deviceId == deviceId && I.IsLatest(interfaces, r) && I.Selected(r.iface, oper, errors)
    {
      var rows := Sort(I.ByNameNewestFirst, Filter(I.OfDevice(deviceId), interfaces));
      OrderedRows(interfaces, deviceId);
      var latest: Dict<string, InterfaceRow> := Dict([], map[]);
      for i := 0 to |rows|
        invariant latest.Valid() && FirstPerName(rows[..i], latest)
      {
        FirstPerNameStep(rows, i, latest);
        latest := latest.SetDefault(I.Name(rows[i]), rows[i]);
      }
      assert rows[..|rows|] == rows;
      ValuesAreLatest(interfaces, deviceId, rows, latest);
      I.SnapshotIsSnapshot(interfaces, deviceId);
      I.SnapshotUnique(interfaces, deviceId, Sort(I.ByName, latest.Values()), I.Snapshot(interfaces, deviceId));
      results := Sort(I.ByName, latest.Values());
      results := I.ApplyFilters(results, oper, errors);
    }

    /** The inner loop of `get_fleet_interfaces`. */
    method AppendEntries(results: seq<A.Entry>, device: Device, view: seq<InterfaceRow>)
      returns (extended: seq<A.Entry>)
      ensures extended == results + Map(A.ToEntry(device), view)
    {
      extended := results;
      for j := 0 to |view|
        invariant extended == results + Map(A.ToEntry(device), view[..j])
      {
        TakePush(view, j);
        MapPush(A.ToEntry(device), view[..j], view[j]);
        extended := extended + [A.Entry(device, view[j])];
      }
      assert view[..|view|] == view;
    }

    method GetFleetInterfaces(oper: Option<string>, errors: Option<bool>) returns (results: seq<A.Entry>)
      requires Pairwise(I.DifferentIds, interfaces)
      ensures results == A.FleetOver(interfaces, A.DevicesById(devices), oper, errors)
    {
      var ds := A.DevicesById(devices);
      results := [];
      for i := 0 to |ds|
        invariant results == A.FleetOver(interfaces, ds[..i], oper, errors)
      {
        var view := GetDeviceInterfaces(ds[i].id, oper, errors);
        results := AppendEntries(results, ds[i], view);
        A.FleetPush(interfaces, ds[..i], ds[i], oper, errors);
        TakePush(ds, i);
      }
      assert ds[..|ds|] == ds;
    }

    method GetFleetHealth() returns (results: seq<(Device, Option<HealthRow>)>)
      ensures results == Map(A.WithLatest(health), A.DevicesById(devices))
    {
      var ds := A.DevicesById(devices);
      results := [];
      for i := 0 to |ds|
        invariant results == Map(A.WithLatest(health), ds[..i])
      {
        results := results + [(ds[i], M.Latest(health, ds[i].id))];
        TakePush(ds, i);
        MapPush(A.WithLatest(health), ds[..i], ds[i]);
      }
      assert ds[..|ds|] == ds;
    }

    /** The alarm loop over the health of the fleet. */
    method CollectHealthAlarms() returns (alarms: seq<A.Alarm>)
      ensures alarms == A.HealthPass(Contents(), A.DevicesById(devices))
    {
      var ds := A.DevicesById(devices);
      var fleet := GetFleetHealth();
      alarms := [];
      for i := 0 to |fleet|
        invariant alarms == A.HealthPass(Contents(), ds[..i])
      {
        var (device, latest) := fleet[i];
        TakePush(ds, i);
        A.HealthPassPush(Contents(), ds[..i], device);
        if latest == None {
          continue;
        }
        var row := latest.value;
        if row.status == Down {
          alarms := alarms + [A.Alarm(A.FromHealth, A.SeverityDown, device.id, device.hostname, device.ipAddress,
                              A.Text(A.HealthText(row.errorMessage, "Device is unreachable")), row.checkedAt)];
        } else if row.status == Error {
          alarms := alarms + [A.Alarm(A.FromHealth, A.SeverityError, device.id, device.hostname, device.ipAddress,
                              A.Text(A.HealthText(row.errorMessage, "Health check failed")), row.checkedAt)];
        }
      }
      assert ds[..|ds|] == ds;
    }

    /** Every current problem of the fleet, most recently observed first, up to `limit`. */
    method GetRecentAlarms(limit: int) returns (alarms: seq<A.Alarm>)
      requires Consistent(Contents())
      ensures A.IsFeed(Contents(), A.Feed(Contents()))
      ensures alarms == SliceTo(A.Feed(Contents()), limit)
    {
      ghost var fleet := A.FleetOver(interfaces, A.DevicesById(devices), None, None);
      A.ByIdOrders(Contents());
      A.FleetIdsDiffer(interfaces, A.DevicesById(devices));
      A.FeedIsFeed(Contents());
      alarms := CollectHealthAlarms();
      var downs := GetFleetInterfaces(Some("down"), None);
      var erroneous := GetFleetInterfaces(None, Some(true));
      A.FilteredListings(interfaces, A.DevicesById(devices));
      var byId := A.DownAlarms(fleet, downs);
      byId := A.AddErrorsAlarms(fleet, erroneous, byId);
      alarms := alarms + byId.Values();
      A.TwoPassParts(Contents(), alarms);
      alarms := Sort(A.MoreRecent, alarms);
      alarms := SliceTo(alarms, limit);
    }

    // ---------- Inventory ----------

    method CreateDevice(input: DeviceInput) returns (reply: Reply)
      modifies this
      ensures reply == ReplyTo(old(Contents()), Create(input))
      ensures Contents() == Step(old(Contents()), Create(input))
    {
      if exists d :: d in devices && d.ipAddress == input.ipAddress {
        return DuplicateIp;
      }
      devices := devices + [NewDevice(nextDevice, input)];
      nextDevice := nextDevice + 1;
      reply := Done;
    }

    method UpdateDevice(id: nat, changes: Changes) returns (reply: Reply)
      modifies this
      ensures reply == ReplyTo(old(Contents()), Update(id, changes))
      ensures Contents() == Step(old(Contents()), Update(id, changes))
    {
      var device := FindDevice(devices, id);
      if device == None {
        return NotFound;
      }
      if changes.ipAddress.Some? && changes.ipAddress.value != device.value.ipAddress {
        if IpTaken(devices, changes.ipAddress.value, id) {
          return DuplicateIp;
        }
      }
      devices := ReplaceDevice(devices, id, changes);
      reply := Done;
    }

    /** The database deletes the row and cascades to the device's history. */
    method DeleteRows(id: nat)
      modifies this
      ensures Contents() == DeleteStep(old(Contents()), id)
    {
      devices := Filter(OtherDevice(id), devices);
      health := Filter(OtherHealth(id), health);
      interfaces := Filter(OtherInterface(id), interfaces);
      backups := Filter(OtherBackup(id), backups);
    }

    method DeleteDevice(id: nat) returns (reply: Reply)
      modifies this
      ensures reply == ReplyTo(old(Contents()), Delete(id))
      ensures Contents() == Step(old(Contents()), Delete(id))
    {
      if FindDevice(devices, id) == None {
        return NotFound;
      }
      DeleteRows(id);
      reply := Done;
    }

    // ---------- Health checks ----------

    method DispatchEvent(e: Event)
      modifies this`events
      ensures events == old(events) + [e]
    {
      events := events + [e];
    }

    method SaveHealth(device: Device, f: M.Finding, now: int) returns (row: HealthRow)
      modifies this`health, this`nextHealth
      ensures row == M.NewRow(old(nextHealth), device.id, f, now)
      ensures health == old(health) + [row] && nextHealth == old(nextHealth) + 1
    {
      row := M.NewRow(nextHealth, device.id, f, now);
      health := health + [row];
      nextHealth := nextHealth + 1;
    }

    method DispatchHealthEvent(device: Device, previousStatus: Option<HealthStatus>, row: HealthRow)
      requires row.deviceId == device.id
      modifies this`events
      ensures events == old(events) + M.EventsFor(previousStatus, row)
    {
      if row.status == Down {
        DispatchEvent(Event(DeviceDown, device.id, row.id, ""));
      } else if row.status == Error {
        DispatchEvent(Event(HealthCheckFailed, device.id, row.id, ""));
      } else if row.status == Up && (previousStatus == Some(Down) || previousStatus == Some(Error)) {
        DispatchEvent(Event(DeviceRecovered, device.id, row.id, ""));
      }
    }

    /** Every way out of a health check: commit the row, then report it against the status read before. */
    method Conclude(device: Device, previousStatus: Option<HealthStatus>, f: M.Finding, now: int)
      returns (row: HealthRow)
      requires previousStatus == M.StatusOf(M.Latest(health, device.id))
      modifies this
      ensures row == M.NewRow(old(nextHealth), device.id, f, now)
      ensures Contents() == StoreHealth(old(Contents()), row)
    {
      row := SaveHealth(device, f, now);
      DispatchHealthEvent(device, previousStatus, row);
    }

    /** The session with a device that answered: connecting, collecting, or failing at either. */
    method CollectHealth(device: Device, previousStatus: Option<HealthStatus>, probe: M.HealthProbe, now: int)
      returns (row: HealthRow)
      requires SupportedVendor(device.vendor) && probe.reachable && probe.passwordSet
      requires previousStatus == M.StatusOf(M.Latest(health, device.id))
      modifies this
      ensures row == M.NewRow(old(nextHealth), device.id, M.Diagnose(device.vendor, probe), now)
      ensures Contents() == StoreHealth(old(Contents()), row)
    {
      match probe.session {
        case ConnectionFailed(reason) =>
          row := Conclude(device, previousStatus, M.Finding(Error, probe.latencyMs, M.NO_READINGS, Some(reason)), now);
        case UnexpectedFailure =>
          row := Conclude(device, previousStatus,
                          M.Finding(Error, probe.latencyMs, M.NO_READINGS, Some(MONITORING_CRASHED)), now);
        case Collected(readings, errors) =>
          var message := if errors == [] then None else Some(M.Join(errors));
          row := Conclude(device, previousStatus, M.Finding(Up, probe.latencyMs, readings, message), now);
      }
    }

    /** Reads the previous status, stores exactly one row whatever happens, and reports the transition. */
    method RunHealthCheck(device: Device, probe: M.HealthProbe, now: int) returns (row: HealthRow)
      modifies this
      ensures row == M.NewRow(old(nextHealth), device.id, M.Diagnose(device.vendor, probe), now)
      ensures Contents() == HealthStep(old(Contents()), device, probe, now)
      ensures row.status == Up
         <==> SupportedVendor(device.vendor) && probe.reachable && probe.passwordSet && probe.session.Collected?
      ensures row.status == Down <==> SupportedVendor(device.vendor) && !probe.reachable
    {
      var previous := M.HistoryPage(health, device.id, 0, 1);
      var previousStatus := if previous == [] then None else Some(previous[0].status);
      if !SupportedVendor(device.vendor) {
        row := Conclude(device, previousStatus,
                        M.Finding(Error, None, M.NO_READINGS, Some(UnsupportedMessage(device.vendor))), now);
      } else if !probe.reachable {
        row := Conclude(device, previousStatus, M.Finding(Down, None, M.NO_READINGS, Some(UNREACHABLE)), now);
      } else if !probe.passwordSet {
        row := Conclude(device, previousStatus,
                        M.Finding(Error, probe.latencyMs, M.NO_READINGS, Some(NO_CREDENTIALS)), now);
      } else {
        row := CollectHealth(device, previousStatus, probe, now);
      }
      M.StatusExact(device.vendor, probe);
    }

    // ---------- Interface checks ----------

    method DispatchInterfaceRow(device: Device, row: InterfaceRow)
      requires row.deviceId == device.id
      modifies this`events
      ensures events == old(events) + I.EventsFor(I.OperOf(I.Previous(interfaces, row)), row)
    {
      var previous := I.Previous(interfaces, row);
      var previousOper := if previous == None then None else previous.value.iface.operStatus;
      if row.iface.operStatus == Some("down") {
        DispatchEvent(Event(InterfaceDown, device.id, row.id, I.Name(row)));
      } else if row.iface.operStatus == Some("up") && previousOper == Some("down") {
        DispatchEvent(Event(InterfaceRecovered, device.id, row.id, I.Name(row)));
      }
      if OrZero(row.iface.inputErrors) > 0 || OrZero(row.iface.outputErrors) > 0 {
        DispatchEvent(Event(InterfaceErrorsDetected, device.id, row.id, I.Name(row)));
      }
    }

    /** Looks every new row up against the table that already holds the whole batch. */
    method DispatchInterfaceEvents(device: Device, newRows: seq<InterfaceRow>)
      requires forall r :: r in newRows ==> r.deviceId == device.id
      modifies this`events
      ensures events == old(events) + I.Dispatch(interfaces, newRows)
    {
      ghost var sent := events;
      for i := 0 to |newRows|
        invariant events == sent + I.Dispatch(interfaces, newRows[..i])
      {
        I.DispatchTurn(interfaces, newRows, i, sent);
        DispatchInterfaceRow(device, newRows[i]);
      }
      assert newRows[..|newRows|] == newRows;
    }

    method CommitInterfaces(device: Device, found: seq<ParsedIface>, now: int) returns (rows: seq<InterfaceRow>)
      modifies this`interfaces, this`nextInterface
      ensures rows == Batch(old(nextInterface), device.id, found, now)
      ensures interfaces == old(interfaces) + rows && nextInterface == old(nextInterface) + |found|
    {
      rows := Batch(nextInterface, device.id, found, now);
      interfaces := interfaces + rows;
      nextInterface := nextInterface + |rows|;
    }

    method SaveInterfaces(device: Device, found: seq<ParsedIface>, now: int) returns (rows: seq<InterfaceRow>)
      modifies this
      ensures rows == Batch(old(nextInterface), device.id, found, now)
      ensures interfaces == old(interfaces) + rows
      ensures Contents() == StoreInterfaces(old(Contents()), device.id, found, now)
    {
      rows := CommitInterfaces(device, found, now);
      DispatchInterfaceEvents(device, rows);
    }

    /** Fetching the raw output and parsing it: an error message, or the interfaces found. */
    method FetchAndParse(vendor: string, discovery: Discovery, parsers: Adapters.Parsers) returns (result: Discovered)
      ensures result == Answer(vendor, discovery, parsers)
    {
      match discovery {
        case FetchFailed(reason) => result := CheckError(reason);
        case FetchCrashed => result := CheckError(INTERFACES_CRASHED);
        case ParseCrashed => result := CheckError(PARSE_FAILED);
        case SaveFailed => result := CheckError(SAVE_FAILED);
        case Fetched(text) =>
          var found := Adapters.CallParser(vendor, text, parsers);
          result := Interfaces(found);
      }
    }

    /** Everything before the rows are stored. */
    method FetchInterfaces(vendor: string, probe: InterfaceProbe) returns (result: Discovered)
      ensures result == Discover(vendor, probe)
    {
      if !SupportedVendor(vendor) {
        return CheckError(UnsupportedMessage(vendor));
      }
      if !probe.reachable {
        return CheckError(UNREACHABLE);
      }
      if !probe.passwordSet {
        return CheckError(NO_CREDENTIALS);
      }
      result := FetchAndParse(vendor, probe.discovery, probe.parsers);
    }

    /** Stores one row per discovered interface, or nothing at all on any failure. */
    method RunInterfaceCheck(device: Device, probe: InterfaceProbe, now: int)
      returns (error: Option<string>, rows: seq<InterfaceRow>)
      modifies this
      ensures Contents() == InterfaceStep(old(Contents()), device, probe, now)
      ensures interfaces == old(interfaces) + rows
      ensures error == None <==> Discover(device.vendor, probe).Interfaces?
      ensures error.Some? ==> rows == [] && Discover(device.vendor, probe) == CheckError(error.value)
      ensures error == None
         <==> SupportedVendor(device.vendor) && probe.reachable && probe.passwordSet && probe.discovery.Fetched?
    {
      O.DiscoveryExact(device.vendor, probe);
      var result := FetchInterfaces(device.vendor, probe);
      match result {
        case CheckError(message) =>
          error, rows := Some(message), [];
        case Interfaces(found) =>
          error := None;
          rows := SaveInterfaces(device, found, now);
      }
    }

    // ---------- Backups ----------

    method SaveBackup(device: Device, status: BackupStatus, filename: Option<string>, filePath: Option<string>,
                      size: Option<nat>, message: Option<string>, now: int) returns (row: BackupRow)
      modifies this
      ensures row == BackupRow(old(nextBackup), device.id, status, filename, filePath, size, message, now)
      ensures Contents() == StoreBackup(old(Contents()), row)
    {
      row := BackupRow(nextBackup, device.id, status, filename, filePath, size, message, now);
      backups := backups + [row];
      nextBackup := nextBackup + 1;
      if row.status == Success {
        DispatchEvent(Event(BackupSuccess, device.id, row.id, ""));
      } else {
        DispatchEvent(Event(BackupFailed, device.id, row.id, ""));
      }
    }

    method FailBackup(device: Device, message: string, now: int) returns (row: BackupRow)
      modifies this
      ensures row == BackupRow(old(nextBackup), device.id, Failed, None, None, None, Some(message), now)
      ensures Contents() == StoreBackup(old(Contents()), row)
    {
      row := SaveBackup(device, Failed, None, None, None, Some(message), now);
    }

    /** Writes the file, then records it. */
    method FileBackup(device: Device, filename: string, path: string, config: string, now: int) returns (row: BackupRow)
      modifies this
      ensures row == BackupRow(old(nextBackup), device.id, Success, Some(filename), Some(path),
                               Some(Utf8Size(config)), None, now)
      ensures Contents() == StoreBackup(old(Contents()).(writes := old(writes) + [Write(path, config)]), row)
    {
      writes := writes + [Write(path, config)];
      row := SaveBackup(device, Success, Some(filename), Some(path), Some(Utf8Size(config)), None, now);
    }

    /** One attempt leaves one record: with the file it wrote, or with the reason why it wrote none. */
    method RunBackup(device: Device, probe: BackupProbe, now: int) returns (row: BackupRow)
      modifies this
      ensures row == NewBackup(old(nextBackup), device, probe, now)
      ensures Contents() == BackupStep(old(Contents()), device, probe, now)
      ensures row.status == Success
         <==> SupportedVendor(device.vendor) && probe.passwordSet && probe.fetch.BackupFetched? && probe.writable
    {
      O.FailureExact(device.vendor, probe);
      O.RecordExact(nextBackup, device, probe, now);
      ghost var before := Contents();
      if !SupportedVendor(device.vendor) {
        BackupRefused(before, device, probe, now, UnsupportedMessage(device.vendor));
        row := FailBackup(device, UnsupportedMessage(device.vendor), now);
        return;
      }
      if !probe.passwordSet {
        BackupRefused(before, device, probe, now, NO_CREDENTIALS);
        row := FailBackup(device, NO_CREDENTIALS, now);
        return;
      }
      match probe.fetch {
        case BackupFetchFailed(reason) =>
          BackupRefused(before, device, probe, now, reason);
          row := FailBackup(device, reason, now);
        case BackupFetchCrashed =>
          BackupRefused(before, device, probe, now, BACKUP_CRASHED);
          row := FailBackup(device, BACKUP_CRASHED, now);
        case BackupFetched(config) =>
          if probe.writable {
            BackupFiled(before, device, probe, now, config);
            var filename := Filename(Slugify(device.hostname), probe.stamp);
            var path := RelativePath(device.vendor, device.hostname, probe.stamp);
            row := FileBackup(device, filename, path, config, now);
          } else {
            BackupRefused(before, device, probe, now, WRITE_FAILED);
            row := FailBackup(device, WRITE_FAILED, now);
          }
      }
    }

    // ---------- The API ----------

    method HandleHealthCheck(id: nat, probe: M.HealthProbe, now: int) returns (reply: Reply)
      modifies this
      ensures reply == ReplyTo(old(Contents()), CheckHealth(id, probe, now))
      ensures Contents() == Step(old(Contents()), CheckHealth(id, probe, now))
    {
      var device := FindDevice(devices, id);
      if device == None {
        return NotFound;
      }
      HealthAccepted(Contents(), id, device.value, probe, now);
      var _ := RunHealthCheck(device.value, probe, now);
      reply := Done;
    }

    method HandleInterfaceCheck(id: nat, probe: InterfaceProbe, now: int) returns (reply: Reply)
      modifies this
      ensures reply == ReplyTo(old(Contents()), CheckInterfaces(id, probe, now))
      ensures Contents() == Step(old(Contents()), CheckInterfaces(id, probe, now))
    {
      var device := FindDevice(devices, id);
      if device == None {
        return NotFound;
      }
      InterfacesAccepted(Contents(), id, device.value, probe, now);
      var _, _ := RunInterfaceCheck(device.value, probe, now);
      reply := Done;
    }

    method HandleBackup(id: nat, probe: BackupProbe, now: int) returns (reply: Reply)
      modifies this
      ensures reply == ReplyTo(old(Contents()), Backup(id, probe, now))
      ensures Contents() == Step(old(Contents()), Backup(id, probe, now))
    {
      var device := FindDevice(devices, id);
      if device == None {
        return NotFound;
      }
      BackupAccepted(Contents(), id, device.value, probe, now);
      var _ := RunBackup(device.value, probe, now);
      reply := Done;
    }

    /** One request of a client: the routers look the device up and call the service. */
    method Handle(r: Request) returns (reply: Reply)
      modifies this
      ensures reply == ReplyTo(old(Contents()), r)
      ensures Contents() == Step(old(Contents()), r)
    {
      match r
      case Create(input) => reply := CreateDevice(input);
      case Update(id, changes) => reply := UpdateDevice(id, changes);
      case Delete(id) => reply := DeleteDevice(id);
      case CheckHealth(id, probe, now) => reply := HandleHealthCheck(id, probe, now);
      case CheckInterfaces(id, probe, now) => reply := HandleInterfaceCheck(id, probe, now);
      case Backup(id, probe, now) => reply := HandleBackup(id, probe, now);
    }

    // ---------- Scheduled jobs ----------

    method RunCheck(job: Job, device: Device, input: JobInput) returns (success: bool)
      requires !input.raises
      modifies this
      ensures Contents() == CheckStep(old(Contents()), job, device, input)
      ensures success == CheckSucceeds(job, device, input)
    {
      match job
      case HealthJob =>
        var row := RunHealthCheck(device, input.health, input.now);
        success := row.status != Error;
      case BackupJob =>
        var row := RunBackup(device, input.backup, input.now);
        success := row.status == Success;
      case InterfaceJob =>
        var error, _ := RunInterfaceCheck(device, input.interfaces, input.now);
        success := error == None;
    }

    /** `_run_for_all_devices`: every device is processed, and each one is counted exactly once. */
    method RunForAllDevices(job: Job, inputs: nat -> JobInput) returns (processed: nat, succeeded: nat, failed: nat)
      modifies this
      ensures Contents() == JobSteps(old(Contents()), job, A.DevicesById(old(devices)), inputs)
      ensures processed == succeeded + failed == |old(devices)|
      ensures succeeded == |Filter(Succeeds(job, inputs), A.DevicesById(old(devices)))|
    {
      processed, succeeded, failed := 0, 0, 0;
      var ds := A.DevicesById(devices);
      for i := 0 to |ds|
        invariant processed == succeeded + failed == i
        invariant succeeded == |Filter(Succeeds(job, inputs), ds[..i])|
        invariant Contents() == JobSteps(old(Contents()), job, ds[..i], inputs)
      {
        processed := processed + 1;
        JobTurn(old(Contents()), job, ds, i, inputs);
        var input := inputs(ds[i].id);
        if input.raises {
          failed := failed + 1;
        } else {
          var success := RunCheck(job, ds[i], input);
          if success {
            succeeded := succeeded + 1;
          } else {
            failed := failed + 1;
          }
        }
      }
      assert ds[..|ds|] == ds;
    }
  }
}
