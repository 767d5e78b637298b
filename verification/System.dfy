/**
 * The backend as a state machine over requests: inventory changes and the three kinds of check, in any order.
 * The methods of `Database` are proved against the steps defined here.
 */
module System {
  import opened Base
  import opened Sorting
  import opened Tables
  import M = Monitoring
  import I = Interfaces
  import opened Storage
  import Adapters

  // ---------- Devices ----------

  datatype DeviceInput = DeviceInput(
    hostname: string, ipAddress: string, vendor: string, deviceType: DeviceType,
    username: string, status: DeviceStatus, description: Option<string>)

  /** The fields a client set in an update; the others stay as they are. */
  datatype Changes = Changes(
    hostname: Option<string>, ipAddress: Option<string>, vendor: Option<string>, deviceType: Option<DeviceType>,
    username: Option<string>, status: Option<DeviceStatus>, description: Option<Option<string>>)

  function NewDevice(id: nat, i: DeviceInput): Device {
    Device(id, i.hostname, i.ipAddress, i.vendor, i.deviceType, i.username, i.status, i.description)
  }

  function Or<T>(change: Option<T>, current: T): T {
    if change.Some? then change.value else current
  }

  function Changed(d: Device, c: Changes): Device {
    Device(d.id, Or(c.hostname, d.hostname), Or(c.ipAddress, d.ipAddress), Or(c.vendor, d.vendor),
           Or(c.deviceType, d.deviceType), Or(c.username, d.username), Or(c.status, d.status),
           Or(c.description, d.description))
  }

  predicate HasDevice(devices: seq<Device>, id: nat) {
    exists d :: d in devices && d.id == id
  }

  function WithId(id: nat): Device -> bool {
    (d: Device) => d.id == id
  }

  /** `get_device`: the first row with that id. */
  function FindDevice(devices: seq<Device>, id: nat): Option<Device> {
    var found := Filter(WithId(id), devices);
    if found == [] then None else Some(found[0])
  }

  /** Some device other than `id` has this address. */
  predicate IpTaken(devices: seq<Device>, ip: string, id: nat) {
    exists d :: d in devices && d.ipAddress == ip && d.id != id
  }

  function ReplaceDevice(devices: seq<Device>, id: nat, c: Changes): seq<Device> {
    Map((d: Device) => if d.id == id then Changed(d, c) else d, devices)
  }

  // ---------- Interface checks ----------

  /** How fetching the raw output and then handling it went. */
  datatype Discovery =
    | FetchFailed(reason: string)
    | FetchCrashed
    | ParseCrashed
    | SaveFailed
    | Fetched(text: string)

  datatype InterfaceProbe = InterfaceProbe(
    reachable: bool, passwordSet: bool, discovery: Discovery, parsers: Adapters.Parsers)

  /** The structured answer of a check: the error message, or the interfaces to store. */
  datatype Discovered = CheckError(message: string) | Interfaces(found: seq<ParsedIface>)

  function Answer(vendor: string, discovery: Discovery, parsers: Adapters.Parsers): Discovered {
    match discovery
    case FetchFailed(reason) => CheckError(reason)
    case FetchCrashed => CheckError(INTERFACES_CRASHED)
    case ParseCrashed => CheckError(PARSE_FAILED)
    case SaveFailed => CheckError(SAVE_FAILED)
    case Fetched(text) => Interfaces(Adapters.ParseInterfaces(vendor, text, parsers))
  }

  lemma AnswerOfText(vendor: string, discovery: Discovery, parsers: Adapters.Parsers, found: seq<ParsedIface>)
    requires discovery.Fetched? && found == Adapters.ParseInterfaces(vendor, discovery.text, parsers)
    ensures Answer(vendor, discovery, parsers).Interfaces? && Answer(vendor, discovery, parsers).found == found
  {
  }

  function Discover(vendor: string, probe: InterfaceProbe): Discovered {
    if !SupportedVendor(vendor) then CheckError(UnsupportedMessage(vendor))
    else if !probe.reachable then CheckError(UNREACHABLE)
    else if !probe.passwordSet then CheckError(NO_CREDENTIALS)
    else Answer(vendor, probe.discovery, probe.parsers)
  }

  function Batch(nextId: nat, d: nat, found: seq<ParsedIface>, now: int): (rows: seq<InterfaceRow>)
    ensures |rows| == |found|
    ensures forall i :: 0 <= i < |found| ==> rows[i] == InterfaceRow(nextId + i, d, found[i], now)
  {
    seq(|found|, i requires 0 <= i < |found| => InterfaceRow(nextId + i, d, found[i], now))
  }

  // ---------- Backups ----------

  datatype Fetch = BackupFetchFailed(reason: string) | BackupFetchCrashed | BackupFetched(config: string)

  /** `stamp` is the formatted second at which the target path is built. */
  datatype BackupProbe = BackupProbe(passwordSet: bool, fetch: Fetch, writable: bool, stamp: Stamp)

  function BackupFailure(vendor: string, probe: BackupProbe): Option<string> {
    if !SupportedVendor(vendor) then Some(UnsupportedMessage(vendor))
    else if !probe.passwordSet then
      Some(NO_CREDENTIALS)
    else match probe.fetch
      case BackupFetchFailed(reason) => Some(reason)
      case BackupFetchCrashed => Some(BACKUP_CRASHED)
      case BackupFetched(_) => if probe.writable then None else Some(WRITE_FAILED)
  }

  function BackupEvent(row: BackupRow): Event {
    Event(if row.status == Success then BackupSuccess else BackupFailed, row.deviceId, row.id, "")
  }

  // ---------- Steps ----------

  datatype Request =
    | Create(input: DeviceInput)
    | Update(id: nat, changes: Changes)
    | Delete(id: nat)
    | CheckHealth(id: nat, healthProbe: M.HealthProbe, now: int)
    | CheckInterfaces(id: nat, interfaceProbe: InterfaceProbe, now: int)
    | Backup(id: nat, backupProbe: BackupProbe, now: int)

  datatype Reply = Done | NotFound | DuplicateIp

  function ReplyTo(s: State, r: Request): Reply {
    match r
    case Create(input) => if exists d :: d in s.devices && d.ipAddress == input.ipAddress then DuplicateIp else Done
    case Update(id, c) =>
      if FindDevice(s.devices, id) == None then NotFound
      else if c.ipAddress.Some? && c.ipAddress.value != FindDevice(s.devices, id).value.ipAddress
              && IpTaken(s.devices, c.ipAddress.value, id) then DuplicateIp
      else Done
    case _ => if FindDevice(s.devices, r.id) == None then NotFound else Done
  }

  function OtherDevice(id: nat): Device -> bool {
    (d: Device) => d.id != id
  }

  function OtherHealth(id: nat): HealthRow -> bool {
    (r: HealthRow) => r.deviceId != id
  }

  function OtherInterface(id: nat): InterfaceRow -> bool {
    (r: InterfaceRow) => r.deviceId != id
  }

  function OtherBackup(id: nat): BackupRow -> bool {
    (r: BackupRow) => r.deviceId != id
  }

  /** Deletes the device; the foreign keys cascade to its history. */
  function DeleteStep(s: State, id: nat): State {
    s.(devices := Filter(OtherDevice(id), s.devices),
       health := Filter(OtherHealth(id), s.health),
       interfaces := Filter(OtherInterface(id), s.interfaces),
       backups := Filter(OtherBackup(id), s.backups))
  }

  /** Commits the row and dispatches its event against the latest status read before. */
  function StoreHealth(s: State, row: HealthRow): State {
    s.(health := s.health + [row],
       nextHealth := s.nextHealth + 1,
       events := s.events + M.EventsFor(M.StatusOf(M.Latest(s.health, row.deviceId)), row))
  }

  function HealthStep(s: State, device: Device, probe: M.HealthProbe, now: int): State {
    StoreHealth(s, M.NewRow(s.nextHealth, device.id, M.Diagnose(device.vendor, probe), now))
  }

  /** Commits the batch, then dispatches its events against the table that already holds it. */
  function StoreInterfaces(s: State, d: nat, found: seq<ParsedIface>, now: int): State {
    var batch := Batch(s.nextInterface, d, found, now);
    var rows := s.interfaces + batch;
    s.(interfaces := rows,
       nextInterface := s.nextInterface + |found|,
       events := s.events + I.Dispatch(rows, batch))
  }

  function InterfaceStep(s: State, device: Device, probe: InterfaceProbe, now: int): State {
    match Discover(device.vendor, probe)
    case CheckError(_) => s
    case Interfaces(found) => StoreInterfaces(s, device.id, found, now)
  }

  function BackupWrite(device: Device, probe: BackupProbe): Write {
    Write(RelativePath(device.vendor, device.hostname, probe.stamp),
          if probe.fetch.BackupFetched? then probe.fetch.config else "")
  }

  function NewBackup(id: nat, device: Device, probe: BackupProbe, now: int): BackupRow {
    match BackupFailure(device.vendor, probe)
    case Some(message) => BackupRow(id, device.id, Failed, None, None, None, Some(message), now)
    case None =>
      BackupRow(id, device.id, Success, Some(Filename(Slugify(device.hostname), probe.stamp)),
                Some(BackupWrite(device, probe).path), Some(Utf8Size(BackupWrite(device, probe).content)), None, now)
  }

  function StoreBackup(s: State, row: BackupRow): State {
    s.(backups := s.backups + [row], nextBackup := s.nextBackup + 1, events := s.events + [BackupEvent(row)])
  }

  /** The state after the file, if any, is written. */
  function Written(s: State, device: Device, probe: BackupProbe): State {
    if BackupFailure(device.vendor, probe) == None then s.(writes := s.writes + [BackupWrite(device, probe)]) else s
  }

  function BackupStep(s: State, device: Device, probe: BackupProbe, now: int): State {
    StoreBackup(Written(s, device, probe), NewBackup(s.nextBackup, device, probe, now))
  }

  lemma RowOfRefused(id: nat, device: Device, probe: BackupProbe, now: int, message: string)
    requires BackupFailure(device.vendor, probe) == Some(message)
    ensures NewBackup(id, device, probe, now)
         == BackupRow(id, device.id, Failed, None, None, None, Some(message), now)
  {
  }

  lemma BackupRefused(s: State, device: Device, probe: BackupProbe, now: int, message: string)
    requires BackupFailure(device.vendor, probe) == Some(message)
    ensures NewBackup(s.nextBackup, device, probe, now)
         == BackupRow(s.nextBackup, device.id, Failed, None, None, None, Some(message), now)
    ensures BackupStep(s, device, probe, now) == StoreBackup(s, NewBackup(s.nextBackup, device, probe, now))
  {
    RowOfRefused(s.nextBackup, device, probe, now, message);
  }

  lemma BackupFiled(s: State, device: Device, probe: BackupProbe, now: int, config: string)
    requires BackupFailure(device.vendor, probe) == None && probe.fetch == BackupFetched(config)
    ensures var path := RelativePath(device.vendor, device.hostname, probe.stamp);
            var row := BackupRow(s.nextBackup, device.id, Success,
                                 Some(Filename(Slugify(device.hostname), probe.stamp)), Some(path),
                                 Some(Utf8Size(config)), None, now);
            && NewBackup(s.nextBackup, device, probe, now) == row
            && BackupStep(s, device, probe, now) == StoreBackup(s.(writes := s.writes + [Write(path, config)]), row)
  {
  }

  function Step(s: State, r: Request): State {
    if ReplyTo(s, r) != Done then s
    else match r
      case Create(input) =>
        s.(devices := s.devices + [NewDevice(s.nextDevice, input)], nextDevice := s.nextDevice + 1)
      case Update(id, c) => s.(devices := ReplaceDevice(s.devices, id, c))
      case Delete(id) => DeleteStep(s, id)
      case CheckHealth(id, probe, now) => HealthStep(s, FindDevice(s.devices, id).value, probe, now)
      case CheckInterfaces(id, probe, now) => InterfaceStep(s, FindDevice(s.devices, id).value, probe, now)
      case Backup(id, probe, now) => BackupStep(s, FindDevice(s.devices, id).value, probe, now)
  }

  lemma HealthAccepted(s: State, id: nat, d: Device, probe: M.HealthProbe, now: int)
    requires FindDevice(s.devices, id) == Some(d)
    ensures ReplyTo(s, CheckHealth(id, probe, now)) == Done
    ensures Step(s, CheckHealth(id, probe, now)) == HealthStep(s, d, probe, now)
  {
  }

  lemma InterfacesAccepted(s: State, id: nat, d: Device, probe: InterfaceProbe, now: int)
    requires FindDevice(s.devices, id) == Some(d)
    ensures ReplyTo(s, CheckInterfaces(id, probe, now)) == Done
    ensures Step(s, CheckInterfaces(id, probe, now)) == InterfaceStep(s, d, probe, now)
  {
  }

  lemma BackupAccepted(s: State, id: nat, d: Device, probe: BackupProbe, now: int)
    requires FindDevice(s.devices, id) == Some(d)
    ensures ReplyTo(s, Backup(id, probe, now)) == Done
    ensures Step(s, Backup(id, probe, now)) == BackupStep(s, d, probe, now)
  {
  }

  function Run(requests: seq<Request>): State {
    if requests == [] then EMPTY else Step(Run(requests[..|requests| - 1]), requests[|requests| - 1])
  }

  lemma RunPush(requests: seq<Request>, r: Request)
    ensures Run(requests + [r]) == Step(Run(requests), r)
  {
    assert (requests + [r])[..|requests|] == requests;
  }

  // ---------- What every run keeps ----------

  predicate DistinctDevices(a: Device, b: Device) {
    a.id != b.id && a.ipAddress != b.ipAddress
  }

  predicate DifferentBackups(a: BackupRow, b: BackupRow) {
    a.id != b.id
  }

  ghost predicate DevicesOk(devices: seq<Device>, next: nat) {
    Pairwise(DistinctDevices, devices) && forall d :: d in devices ==> d.id < next
  }

  ghost predicate HealthOk(devices: seq<Device>, rows: seq<HealthRow>, next: nat) {
    Pairwise(M.DifferentIds, rows) && forall r :: r in rows ==> r.id < next && HasDevice(devices, r.deviceId)
  }

  ghost predicate InterfacesOk(devices: seq<Device>, rows: seq<InterfaceRow>, next: nat) {
    && Pairwise(I.DifferentIds, rows)
    && forall r :: r in rows ==> r.id < next && HasDevice(devices, r.deviceId) && CountersNatural(r.iface)
  }

  ghost predicate BackupsOk(devices: seq<Device>, rows: seq<BackupRow>, next: nat) {
    Pairwise(DifferentBackups, rows) && forall r :: r in rows ==> r.id < next && HasDevice(devices, r.deviceId)
  }

  ghost predicate EventsOk(events: seq<Event>, nextDevice: nat) {
    forall e :: e in events ==> e.deviceId < nextDevice
  }

  /**
   * Keys are unique and never reused, no two devices share an address, every history row belongs to an existing
   * device, and stored counters are not negative.
   */
  ghost predicate Consistent(s: State) {
    && DevicesOk(s.devices, s.nextDevice)
    && HealthOk(s.devices, s.health, s.nextHealth)
    && InterfacesOk(s.devices, s.interfaces, s.nextInterface)
    && BackupsOk(s.devices, s.backups, s.nextBackup)
    && EventsOk(s.events, s.nextDevice)
  }

  lemma FindIsPresent(devices: seq<Device>, id: nat)
    ensures FindDevice(devices, id).Some? <==> HasDevice(devices, id)
    ensures FindDevice(devices, id).Some? ==>
              FindDevice(devices, id).value in devices && FindDevice(devices, id).value.id == id
  {
    var found := Filter(WithId(id), devices);
    if found != [] {
      assert found[0] in found;
    }
  }

  lemma SameId(devices: seq<Device>, a: Device, b: Device)
    requires Pairwise(DistinctDevices, devices) && a in devices && b in devices && a.id == b.id
    ensures a == b
  {
    PairwiseMembers(DistinctDevices, devices, a, b);
  }

  lemma FindSelf(devices: seq<Device>, d: Device)
    requires Pairwise(DistinctDevices, devices) && d in devices
    ensures FindDevice(devices, d.id) == Some(d)
  {
    FindIsPresent(devices, d.id);
    assert HasDevice(devices, d.id);
    SameId(devices, FindDevice(devices, d.id).value, d);
  }

  lemma PairwisePush<T(!new)>(rel: (T, T) -> bool, s: seq<T>, x: T)
    requires Pairwise(rel, s) && forall y :: y in s ==> rel(y, x)
    ensures Pairwise(rel, s + [x])
  {
  }

  /** Rows stay attached when every device id is kept. */
  lemma RowsStayAttached(s: State, devices: seq<Device>)
    requires Consistent(s)
    requires forall d :: d in s.devices ==> HasDevice(devices, d.id)
    ensures HealthOk(devices, s.health, s.nextHealth)
    ensures InterfacesOk(devices, s.interfaces, s.nextInterface)
    ensures BackupsOk(devices, s.backups, s.nextBackup)
  {
    forall id: nat | HasDevice(s.devices, id) ensures HasDevice(devices, id) {
      var d :| d in s.devices && d.id == id;
      assert HasDevice(devices, d.id);
    }
  }

  lemma CreateKeeps(s: State, input: DeviceInput)
    requires Consistent(s) && ReplyTo(s, Create(input)) == Done
    ensures Consistent(Step(s, Create(input)))
  {
    var d := NewDevice(s.nextDevice, input);
    PairwisePush(DistinctDevices, s.devices, d);
    forall e | e in s.devices ensures HasDevice(s.devices + [d], e.id) {
      assert e in s.devices + [d];
    }
    RowsStayAttached(s, s.devices + [d]);
  }

  lemma ReplacedAt(devices: seq<Device>, next: nat, id: nat, c: Changes, k: nat)
    requires DevicesOk(devices, next) && FindDevice(devices, id).Some? && k < |devices|
    ensures var d, b, target := devices[k], ReplaceDevice(devices, id, c), FindDevice(devices, id).value;
            && b[k].id == d.id
            && (d.id == id ==> d == target)
            && b[k].ipAddress == (if d.id == id then Or(c.ipAddress, target.ipAddress) else d.ipAddress)
  {
    FindIsPresent(devices, id);
    assert devices[k] in devices;
    if devices[k].id == id {
      SameId(devices, devices[k], FindDevice(devices, id).value);
    }
  }

  lemma ReplacedDevices(devices: seq<Device>, next: nat, id: nat, c: Changes)
    requires DevicesOk(devices, next) && FindDevice(devices, id).Some?
    requires c.ipAddress.Some? && c.ipAddress.value != FindDevice(devices, id).value.ipAddress ==>
               !IpTaken(devices, c.ipAddress.value, id)
    ensures DevicesOk(ReplaceDevice(devices, id, c), next)
    ensures forall d :: d in devices ==> HasDevice(ReplaceDevice(devices, id, c), d.id)
  {
    var b := ReplaceDevice(devices, id, c);
    forall i, j | 0 <= i < j < |b| ensures DistinctDevices(b[i], b[j]) {
      assert DistinctDevices(devices[i], devices[j]) && devices[i] in devices && devices[j] in devices;
      ReplacedAt(devices, next, id, c, i);
      ReplacedAt(devices, next, id, c, j);
    }
    forall d | d in b ensures d.id < next {
      var k :| 0 <= k < |b| && b[k] == d;
      ReplacedAt(devices, next, id, c, k);
      assert devices[k] in devices;
    }
    forall d | d in devices ensures HasDevice(b, d.id) {
      var k :| 0 <= k < |devices| && devices[k] == d;
      ReplacedAt(devices, next, id, c, k);
      assert b[k] in b;
    }
  }

  lemma UpdateKeeps(s: State, id: nat, c: Changes)
    requires Consistent(s) && ReplyTo(s, Update(id, c)) == Done
    ensures Consistent(Step(s, Update(id, c)))
  {
    ReplacedDevices(s.devices, s.nextDevice, id, c);
    RowsStayAttached(s, ReplaceDevice(s.devices, id, c));
  }

  lemma DeleteKeeps(s: State, id: nat)
    requires Consistent(s)
    ensures Consistent(DeleteStep(s, id))
  {
    var s' := DeleteStep(s, id);
    FilterPairwise(DistinctDevices, OtherDevice(id), s.devices);
    FilterPairwise(M.DifferentIds, OtherHealth(id), s.health);
    FilterPairwise(I.DifferentIds, OtherInterface(id), s.interfaces);
    FilterPairwise(DifferentBackups, OtherBackup(id), s.backups);
    forall k: nat | HasDevice(s.devices, k) && k != id ensures HasDevice(s'.devices, k) {
      var d :| d in s.devices && d.id == k;
      assert d in s'.devices;
    }
  }

  lemma HealthRowFits(devices: seq<Device>, rows: seq<HealthRow>, next: nat, row: HealthRow)
    requires HealthOk(devices, rows, next) && HasDevice(devices, row.deviceId) && row.id == next
    ensures HealthOk(devices, rows + [row], next + 1)
  {
    PairwisePush(M.DifferentIds, rows, row);
  }

  lemma HealthKeeps(s: State, row: HealthRow)
    requires Consistent(s) && HasDevice(s.devices, row.deviceId) && row.id == s.nextHealth
    ensures Consistent(StoreHealth(s, row))
  {
    HealthRowFits(s.devices, s.health, s.nextHealth, row);
    EventsGrow(s.events, M.EventsFor(M.StatusOf(M.Latest(s.health, row.deviceId)), row), row.deviceId, s.nextDevice);
  }

  lemma EventsGrow(events: seq<Event>, added: seq<Event>, d: nat, nextDevice: nat)
    requires EventsOk(events, nextDevice) && d < nextDevice
    requires forall e :: e in added ==> e.deviceId == d
    ensures EventsOk(events + added, nextDevice)
  {
  }

  lemma {:induction false} DispatchDevice(rows: seq<InterfaceRow>, batch: seq<InterfaceRow>, d: nat)
    requires forall r :: r in batch ==> r.deviceId == d
    ensures forall e :: e in I.Dispatch(rows, batch) ==> e.deviceId == d && I.InterfaceKind(e.kind)
  {
    if batch != [] {
      DispatchDevice(rows, batch[..|batch| - 1], d);
    }
  }

  lemma BatchFits(
    devices: seq<Device>, rows: seq<InterfaceRow>, next: nat, d: Device, found: seq<ParsedIface>, now: int)
    requires InterfacesOk(devices, rows, next) && d in devices
    ensures InterfacesOk(devices, rows + Batch(next, d.id, found, now), next + |found|)
  {
    var batch := Batch(next, d.id, found, now);
    var all := rows + batch;
    forall i, j | 0 <= i < j < |all| ensures I.DifferentIds(all[i], all[j]) {
      assert i < |rows| ==> all[i] in rows;
      assert j < |rows| ==> I.DifferentIds(rows[i], rows[j]);
    }
  }

  lemma InterfacesKeep(s: State, d: Device, found: seq<ParsedIface>, now: int)
    requires Consistent(s) && d in s.devices
    ensures Consistent(StoreInterfaces(s, d.id, found, now))
  {
    var batch := Batch(s.nextInterface, d.id, found, now);
    BatchFits(s.devices, s.interfaces, s.nextInterface, d, found, now);
    DispatchDevice(s.interfaces + batch, batch, d.id);
    EventsGrow(s.events, I.Dispatch(s.interfaces + batch, batch), d.id, s.nextDevice);
  }

  lemma BackupRowFits(devices: seq<Device>, rows: seq<BackupRow>, next: nat, row: BackupRow)
    requires BackupsOk(devices, rows, next) && HasDevice(devices, row.deviceId) && row.id == next
    ensures BackupsOk(devices, rows + [row], next + 1)
  {
    PairwisePush(DifferentBackups, rows, row);
  }

  lemma BackupKeeps(s: State, d: Device, probe: BackupProbe, now: int)
    requires Consistent(s) && d in s.devices
    ensures Consistent(BackupStep(s, d, probe, now))
  {
    var row := NewBackup(s.nextBackup, d, probe, now);
    BackupRowFits(s.devices, s.backups, s.nextBackup, row);
    EventsGrow(s.events, [BackupEvent(row)], d.id, s.nextDevice);
  }

  lemma CheckHealthKeeps(s: State, d: Device, probe: M.HealthProbe, now: int)
    requires Consistent(s) && d in s.devices
    ensures Consistent(HealthStep(s, d, probe, now))
  {
    HealthKeeps(s, M.NewRow(s.nextHealth, d.id, M.Diagnose(d.vendor, probe), now));
  }

  lemma CheckInterfacesKeeps(s: State, d: Device, probe: InterfaceProbe, now: int)
    requires Consistent(s) && d in s.devices
    ensures Consistent(InterfaceStep(s, d, probe, now))
  {
    if Discover(d.vendor, probe).Interfaces? {
      InterfacesKeep(s, d, Discover(d.vendor, probe).found, now);
    }
  }

  lemma InventoryKeeps(s: State, r: Request)
    requires Consistent(s) && ReplyTo(s, r) == Done && (r.Create? || r.Update? || r.Delete?)
    ensures Consistent(Step(s, r))
  {
    match r
    case Create(input) => CreateKeeps(s, input);
    case Update(id, c) => UpdateKeeps(s, id, c);
    case Delete(id) => DeleteKeeps(s, id);
  }

  lemma ChecksKeep(s: State, r: Request)
    requires Consistent(s) && ReplyTo(s, r) == Done && (r.CheckHealth? || r.CheckInterfaces? || r.Backup?)
    ensures Consistent(Step(s, r))
  {
    FindIsPresent(s.devices, r.id);
    var d := FindDevice(s.devices, r.id).value;
    match r
    case CheckHealth(_, probe, now) => CheckHealthKeeps(s, d, probe, now);
    case CheckInterfaces(_, probe, now) => CheckInterfacesKeeps(s, d, probe, now);
    case Backup(_, probe, now) => BackupKeeps(s, d, probe, now);
  }

  lemma StepKeeps(s: State, r: Request)
    requires Consistent(s)
    ensures Consistent(Step(s, r))
  {
    if ReplyTo(s, r) == Done {
      if r.Create? || r.Update? || r.Delete? {
        InventoryKeeps(s, r);
      } else {
        ChecksKeep(s, r);
      }
    }
  }

  /** Every reachable state is consistent, and a rejected request changes nothing. */
  lemma {:induction false} RunIsConsistent(requests: seq<Request>)
    ensures Consistent(Run(requests))
    ensures forall r :: ReplyTo(Run(requests), r) != Done ==> Step(Run(requests), r) == Run(requests)
  {
    if requests != [] {
      RunIsConsistent(requests[..|requests| - 1]);
      StepKeeps(Run(requests[..|requests| - 1]), requests[|requests| - 1]);
    }
  }
}
