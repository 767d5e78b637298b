/** What each accepted request does to the tables, said in terms of the request and of what the outside answered. */
module Outcomes {
  import opened Base
  import opened Sorting
  import opened Tables
  import M = Monitoring
  import I = Interfaces
  import opened Storage
  import opened System
  import Adapters

  // ---------- Inventory ----------

  /** A creation is refused exactly when a device has the address; nothing else is looked at. */
  lemma CreationRefused(s: State, input: DeviceInput)
    ensures ReplyTo(s, Create(input)) == DuplicateIp <==> exists d :: d in s.devices && d.ipAddress == input.ipAddress
    ensures ReplyTo(s, Create(input)) != NotFound
  {
  }

  /** The tables other than the inventory, and the events. */
  predicate HistoryKept(s: State, s': State) {
    && s'.health == s.health && s'.interfaces == s.interfaces && s'.backups == s.backups
    && s'.writes == s.writes && s'.events == s.events
    && s'.nextHealth == s.nextHealth && s'.nextInterface == s.nextInterface && s'.nextBackup == s.nextBackup
  }

  /** A created device carries every field of its input, under a new id; every other device is found as before. */
  lemma DeviceCreated(s: State, input: DeviceInput)
    requires Consistent(s) && ReplyTo(s, Create(input)) == Done
    ensures var s' := Step(s, Create(input));
            var d := FindDevice(s'.devices, s.nextDevice);
            && FindDevice(s.devices, s.nextDevice) == None
            && d.Some? && d.value.id == s.nextDevice && s'.nextDevice == s.nextDevice + 1
            && d.value.hostname == input.hostname && d.value.ipAddress == input.ipAddress
            && d.value.vendor == input.vendor && d.value.deviceType == input.deviceType
            && d.value.username == input.username && d.value.status == input.status
            && d.value.description == input.description
            && HistoryKept(s, s')
    ensures forall other: nat :: other != s.nextDevice ==>
              FindDevice(Step(s, Create(input)).devices, other) == FindDevice(s.devices, other)
  {
    var d := NewDevice(s.nextDevice, input);
    FindIsPresent(s.devices, s.nextDevice);
    forall other: nat
      ensures FindDevice(s.devices + [d], other)
           == if other == d.id && FindDevice(s.devices, other) == None then Some(d) else FindDevice(s.devices, other)
    {
      FilterPush(WithId(other), s.devices, d);
    }
  }

  lemma NoOtherHasIp(devices: seq<Device>, next: nat, d: Device)
    requires DevicesOk(devices, next) && d in devices
    ensures !IpTaken(devices, d.ipAddress, d.id)
  {
    forall o | o in devices && o.ipAddress == d.ipAddress ensures o.id == d.id {
      PairwiseMembers(DistinctDevices, devices, o, d);
    }
  }

  /** An update is refused exactly when there is no such device, or another one has the address asked for. */
  lemma UpdateRefused(s: State, id: nat, c: Changes)
    requires Consistent(s)
    ensures ReplyTo(s, Update(id, c)) == NotFound <==> forall d :: d in s.devices ==> d.id != id
    ensures ReplyTo(s, Update(id, c)) == DuplicateIp
       <==> && (exists d :: d in s.devices && d.id == id)
            && c.ipAddress.Some? && exists o :: o in s.devices && o.id != id && o.ipAddress == c.ipAddress.value
  {
    FindIsPresent(s.devices, id);
    if FindDevice(s.devices, id).Some? {
      NoOtherHasIp(s.devices, s.nextDevice, FindDevice(s.devices, id).value);
    }
  }

  /** Each field of `t` is the value sent, or as it was in `d` when none was sent. */
  predicate Merged(d: Device, c: Changes, t: Device) {
    && t.id == d.id
    && (if c.hostname.Some? then t.hostname == c.hostname.value else t.hostname == d.hostname)
    && (if c.ipAddress.Some? then t.ipAddress == c.ipAddress.value else t.ipAddress == d.ipAddress)
    && (if c.vendor.Some? then t.vendor == c.vendor.value else t.vendor == d.vendor)
    && (if c.deviceType.Some? then t.deviceType == c.deviceType.value else t.deviceType == d.deviceType)
    && (if c.username.Some? then t.username == c.username.value else t.username == d.username)
    && (if c.status.Some? then t.status == c.status.value else t.status == d.status)
    && (if c.description.Some? then t.description == c.description.value else t.description == d.description)
  }

  lemma UpdatedAt(s: State, id: nat, c: Changes, k: nat)
    requires k < |s.devices|
    ensures var b := ReplaceDevice(s.devices, id, c);
            if s.devices[k].id == id then Merged(s.devices[k], c, b[k]) else b[k] == s.devices[k]
  {
  }

  lemma DevicesUpdated(s: State, id: nat, c: Changes, d: Device)
    requires Consistent(s) && ReplyTo(s, Update(id, c)) == Done && d in s.devices
    ensures var found := FindDevice(Step(s, Update(id, c)).devices, d.id);
            found.Some? && if d.id == id then Merged(d, c, found.value) else found.value == d
  {
    var k :| 0 <= k < |s.devices| && s.devices[k] == d;
    UpdatedAt(s, id, c, k);
    UpdateKeeps(s, id, c);
    var b := ReplaceDevice(s.devices, id, c);
    assert b[k] in b;
    FindSelf(b, b[k]);
  }

  /**
   * An accepted update changes the device it names, and of that one the fields that were sent; every other device is
   * found as before, and nothing else is touched.
   */
  lemma DeviceUpdated(s: State, id: nat, c: Changes)
    requires Consistent(s) && ReplyTo(s, Update(id, c)) == Done
    ensures var s' := Step(s, Update(id, c));
            var d, t := FindDevice(s.devices, id), FindDevice(s'.devices, id);
            d.Some? && t.Some? && Merged(d.value, c, t.value) && s'.nextDevice == s.nextDevice && HistoryKept(s, s')
    ensures forall other: nat :: other != id ==>
              FindDevice(Step(s, Update(id, c)).devices, other) == FindDevice(s.devices, other)
  {
    FindIsPresent(s.devices, id);
    DevicesUpdated(s, id, c, FindDevice(s.devices, id).value);
    forall other: nat | other != id
      ensures FindDevice(Step(s, Update(id, c)).devices, other) == FindDevice(s.devices, other)
    {
      OtherAfterUpdate(s, id, c, other);
    }
  }

  lemma NoNewIds(s: State, id: nat, c: Changes, other: nat)
    requires HasDevice(ReplaceDevice(s.devices, id, c), other)
    ensures HasDevice(s.devices, other)
  {
    var b := ReplaceDevice(s.devices, id, c);
    var d :| d in b && d.id == other;
    var k :| 0 <= k < |b| && b[k] == d;
    UpdatedAt(s, id, c, k);
    assert s.devices[k] in s.devices && s.devices[k].id == other;
  }

  lemma OtherAfterUpdate(s: State, id: nat, c: Changes, other: nat)
    requires Consistent(s) && ReplyTo(s, Update(id, c)) == Done && other != id
    ensures FindDevice(Step(s, Update(id, c)).devices, other) == FindDevice(s.devices, other)
  {
    var b := ReplaceDevice(s.devices, id, c);
    FindIsPresent(s.devices, other);
    FindIsPresent(b, other);
    if FindDevice(s.devices, other).Some? {
      DevicesUpdated(s, id, c, FindDevice(s.devices, other).value);
    } else if HasDevice(b, other) {
      NoNewIds(s, id, c, other);
    }
  }

  /** A deletion takes the device and its rows, and no other device and no row of another device. */
  lemma DeviceDeleted(s: State, id: nat)
    requires Consistent(s)
    ensures ReplyTo(s, Delete(id)) == Done <==> exists d :: d in s.devices && d.id == id
    ensures ReplyTo(s, Delete(id)) == Done ==>
              var s' := Step(s, Delete(id));
              && (forall d :: d in s'.devices <==> d in s.devices && d.id != id)
              && (forall r :: r in s'.health <==> r in s.health && r.deviceId != id)
              && (forall r :: r in s'.interfaces <==> r in s.interfaces && r.deviceId != id)
              && (forall r :: r in s'.backups <==> r in s.backups && r.deviceId != id)
              && s'.writes == s.writes && s'.events == s.events && s'.nextDevice == s.nextDevice
              && s'.nextHealth == s.nextHealth && s'.nextInterface == s.nextInterface && s'.nextBackup == s.nextBackup
  {
    FindIsPresent(s.devices, id);
  }

  // ---------- Health checks ----------

  lemma HealthStored(s: State, d: Device, probe: M.HealthProbe, now: int, s': State, row: HealthRow)
    requires s' == HealthStep(s, d, probe, now) && row == M.NewRow(s.nextHealth, d.id, M.Diagnose(d.vendor, probe), now)
    ensures s'.health == s.health + [row] && s'.nextHealth == s.nextHealth + 1
    ensures s'.devices == s.devices && s'.interfaces == s.interfaces && s'.backups == s.backups && s'.writes == s.writes
    ensures s'.events == s.events + M.EventsFor(M.StatusOf(M.Latest(s.health, d.id)), row)
  {
  }

  /** What one row reports, against the row that was latest before it. */
  lemma HealthReported(previous: Option<HealthRow>, row: HealthRow)
    ensures M.EventsFor(M.StatusOf(previous), row) ==
              match row.status
              case Down => [Event(DeviceDown, row.deviceId, row.id, "")]
              case Error => [Event(HealthCheckFailed, row.deviceId, row.id, "")]
              case Up =>
                if previous.Some? && previous.value.status != Up
                then [Event(DeviceRecovered, row.deviceId, row.id, "")] else []
  {
  }

  /**
   * An accepted health check stores one row of the device. It is UP exactly when the vendor is supported, the device
   * answers, a password is set and the session goes through; DOWN exactly when a supported device does not answer.
   */
  lemma HealthChecked(s: State, id: nat, d: Device, probe: M.HealthProbe, now: int)
    requires FindDevice(s.devices, id) == Some(d)
    ensures var s', supported := Step(s, CheckHealth(id, probe, now)), SupportedVendor(d.vendor);
            && |s'.health| == |s.health| + 1 && s.health <= s'.health
            && var row := s'.health[|s.health|];
               && row.deviceId == id && row.id == s.nextHealth && row.checkedAt == now
               && (row.status == Up <==> supported && probe.reachable && probe.passwordSet && probe.session.Collected?)
               && (row.status == Down <==> supported && !probe.reachable)
               && row.latencyMs == (if supported && probe.reachable then probe.latencyMs else None)
               && (row.status == Up ==> row.readings == probe.session.readings)
               && row.errorMessage == M.Diagnose(d.vendor, probe).errorMessage
  {
    FindIsPresent(s.devices, id);
    HealthAccepted(s, id, d, probe, now);
    M.StatusExact(d.vendor, probe);
    M.ReadingsExact(d.vendor, probe);
    HealthStored(s, d, probe, now, Step(s, CheckHealth(id, probe, now)),
                 M.NewRow(s.nextHealth, id, M.Diagnose(d.vendor, probe), now));
  }

  /** Each check of a supported device that does not answer sends one failure event about it, and no other event. */
  lemma UnreachableIsReported(requests: seq<Request>, id: nat, d: Device, probe: M.HealthProbe, now: int)
    requires FindDevice(Run(requests).devices, id) == Some(d) && SupportedVendor(d.vendor) && !probe.reachable
    ensures var s, s' := Run(requests), Run(requests + [CheckHealth(id, probe, now)]);
            s'.events == s.events + [Event(DeviceDown, id, s.nextHealth, "")]
  {
    var s := Run(requests);
    RunPush(requests, CheckHealth(id, probe, now));
    FindIsPresent(s.devices, id);
    HealthAccepted(s, id, d, probe, now);
    M.StatusExact(d.vendor, probe);
    var row := M.NewRow(s.nextHealth, id, M.Diagnose(d.vendor, probe), now);
    HealthStored(s, d, probe, now, Step(s, CheckHealth(id, probe, now)), row);
    HealthReported(M.Latest(s.health, id), row);
  }

  // ---------- Interface checks ----------

  /** A check gets as far as storing rows exactly when nothing went wrong on the way to the fetched text. */
  lemma DiscoveryExact(vendor: string, probe: InterfaceProbe)
    ensures Discover(vendor, probe).Interfaces?
       <==> SupportedVendor(vendor) && probe.reachable && probe.passwordSet && probe.discovery.Fetched?
    ensures Discover(vendor, probe).Interfaces? ==>
              Discover(vendor, probe).found == Adapters.ParseInterfaces(vendor, probe.discovery.text, probe.parsers)
  {
    if SupportedVendor(vendor) && probe.reachable && probe.passwordSet && probe.discovery.Fetched? {
      AnswerOfText(vendor, probe.discovery, probe.parsers,
                   Adapters.ParseInterfaces(vendor, probe.discovery.text, probe.parsers));
    }
  }

  /** The message of a check that stores nothing: the first thing that went wrong. */
  lemma DiscoveryMessage(vendor: string, probe: InterfaceProbe, message: string)
    requires Discover(vendor, probe) == CheckError(message)
    ensures !SupportedVendor(vendor) ==> message == UnsupportedMessage(vendor)
    ensures SupportedVendor(vendor) && !probe.reachable ==> message == UNREACHABLE
    ensures SupportedVendor(vendor) && probe.reachable && !probe.passwordSet ==> message == NO_CREDENTIALS
    ensures SupportedVendor(vendor) && probe.reachable && probe.passwordSet ==>
              match probe.discovery
              case FetchFailed(reason) => message == reason
              case FetchCrashed => message == INTERFACES_CRASHED
              case ParseCrashed => message == PARSE_FAILED
              case SaveFailed => message == SAVE_FAILED
              case Fetched(_) => false
  {
  }

  /** `rows` is `before` with one row of device `id` for each interface found, in order, with new ids and one time. */
  predicate Appends(
    before: seq<InterfaceRow>, rows: seq<InterfaceRow>, next: nat, id: nat, found: seq<ParsedIface>, now: int)
  {
    && |rows| == |before| + |found| && before <= rows
    && forall i :: 0 <= i < |found| ==>
         var row := rows[|before| + i];
         row.deviceId == id && row.iface == found[i] && row.checkedAt == now && row.id == next + i
  }

  lemma BatchAppends(before: seq<InterfaceRow>, next: nat, id: nat, found: seq<ParsedIface>, now: int)
    ensures Appends(before, before + Batch(next, id, found, now), next, id, found, now)
  {
    var batch := Batch(next, id, found, now);
    assert forall i :: 0 <= i < |found| ==> (before + batch)[|before| + i] == batch[i];
  }

  lemma BatchStored(s: State, s': State, id: nat, found: seq<ParsedIface>, now: int)
    requires s' == StoreInterfaces(s, id, found, now)
    ensures s'.interfaces == s.interfaces + Batch(s.nextInterface, id, found, now)
    ensures s'.devices == s.devices && s'.health == s.health && s'.backups == s.backups && s'.writes == s.writes
  {
  }

  lemma DiscoveredStep(s: State, d: Device, probe: InterfaceProbe, now: int, found: seq<ParsedIface>)
    requires Discover(d.vendor, probe).Interfaces? && Discover(d.vendor, probe).found == found
    ensures InterfaceStep(s, d, probe, now) == StoreInterfaces(s, d.id, found, now)
  {
  }

  lemma NothingDiscovered(s: State, d: Device, probe: InterfaceProbe, now: int)
    requires !Discover(d.vendor, probe).Interfaces?
    ensures InterfaceStep(s, d, probe, now) == s
  {
  }

  /**
   * An accepted interface check that fetches its text appends one row of the device for each interface found in it,
   * in order; any other one changes nothing.
   */
  lemma InterfacesChecked(s: State, id: nat, d: Device, probe: InterfaceProbe, now: int)
    requires FindDevice(s.devices, id) == Some(d)
    ensures var s' := Step(s, CheckInterfaces(id, probe, now));
            if SupportedVendor(d.vendor) && probe.reachable && probe.passwordSet && probe.discovery.Fetched? then
              && Appends(s.interfaces, s'.interfaces, s.nextInterface, id,
                         Adapters.ParseInterfaces(d.vendor, probe.discovery.text, probe.parsers), now)
              && s'.devices == s.devices && s'.health == s.health && s'.backups == s.backups && s'.writes == s.writes
            else
              s' == s
  {
    FindIsPresent(s.devices, id);
    InterfacesAccepted(s, id, d, probe, now);
    DiscoveryExact(d.vendor, probe);
    if Discover(d.vendor, probe).Interfaces? {
      var found := Discover(d.vendor, probe).found;
      DiscoveredStep(s, d, probe, now, found);
      BatchAppends(s.interfaces, s.nextInterface, id, found, now);
      BatchStored(s, StoreInterfaces(s, id, found, now), id, found, now);
    } else {
      NothingDiscovered(s, d, probe, now);
    }
  }

  // ---------- Backups ----------

  lemma FailureExact(vendor: string, probe: BackupProbe)
    ensures BackupFailure(vendor, probe) == None
       <==> SupportedVendor(vendor) && probe.passwordSet && probe.fetch.BackupFetched? && probe.writable
    ensures !SupportedVendor(vendor) ==> BackupFailure(vendor, probe) == Some(UnsupportedMessage(vendor))
    ensures SupportedVendor(vendor) && !probe.passwordSet ==> BackupFailure(vendor, probe) == Some(NO_CREDENTIALS)
    ensures SupportedVendor(vendor) && probe.passwordSet ==>
              match probe.fetch
              case BackupFetchFailed(reason) => BackupFailure(vendor, probe) == Some(reason)
              case BackupFetchCrashed => BackupFailure(vendor, probe) == Some(BACKUP_CRASHED)
              case BackupFetched(_) => !probe.writable ==> BackupFailure(vendor, probe) == Some(WRITE_FAILED)
  {
  }

  lemma RecordExact(id: nat, d: Device, probe: BackupProbe, now: int)
    ensures var r, failure := NewBackup(id, d, probe, now), BackupFailure(d.vendor, probe);
            && r.id == id && r.deviceId == d.id && r.createdAt == now
            && (r.status == Success <==> failure == None)
            && r.errorMessage == failure
            && r.filename == (if failure == None then Some(Slugify(d.hostname) + "_" + probe.stamp + ".cfg") else None)
  {
  }

  /**
   * An accepted backup stores one record of the device: a success exactly when the vendor is supported, a password is
   * set, the configuration is fetched and the file can be written. Its one event says which.
   */
  lemma BackedUp(s: State, id: nat, d: Device, probe: BackupProbe, now: int)
    requires FindDevice(s.devices, id) == Some(d)
    ensures var s' := Step(s, Backup(id, probe, now));
            && |s'.backups| == |s.backups| + 1 && s.backups <= s'.backups
            && var r := s'.backups[|s.backups|];
               && r.id == s.nextBackup && r.deviceId == id && r.createdAt == now
               && (r.status == Success <==>
                     SupportedVendor(d.vendor) && probe.passwordSet && probe.fetch.BackupFetched? && probe.writable)
               && s'.events
                  == s.events + [Event(if r.status == Success then BackupSuccess else BackupFailed, id, r.id, "")]
               && s'.devices == s.devices && s'.health == s.health && s'.interfaces == s.interfaces
  {
    FindIsPresent(s.devices, id);
    BackupAccepted(s, id, d, probe, now);
    FailureExact(d.vendor, probe);
    RecordExact(s.nextBackup, d, probe, now);
  }
}
