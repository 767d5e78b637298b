/** The rows of the database, the events sent to the webhook, and the whole state of the backend. */
module Tables {
  import opened Base

  datatype DeviceStatus = Active | Inactive | Maintenance | Unknown

  datatype DeviceType = Router | Switch | Firewall | AccessPoint | LoadBalancer | Other

  datatype Device = Device(
    id: nat, hostname: string, ipAddress: string, vendor: string, deviceType: DeviceType,
    username: string, status: DeviceStatus, description: Option<string>)

  datatype HealthStatus = Up | Down | Error

  /** What a successful session reads from a device. */
  datatype Readings = Readings(
    hostname: Option<string>, uptime: Option<string>, cpuUsage: Option<real>, memoryUsage: Option<real>)

  datatype HealthRow = HealthRow(
    id: nat, deviceId: nat, status: HealthStatus, latencyMs: Option<real>, readings: Readings,
    errorMessage: Option<string>, checkedAt: int)

  /** One discovered interface: the common key set of the vendor parsers. */
  datatype Iface = Iface(
    name: string, description: Option<string>, adminStatus: Option<string>, operStatus: Option<string>,
    ipAddress: Option<string>, speed: Option<string>, duplex: Option<string>,
    inputRate: Option<int>, outputRate: Option<int>, inputErrors: Option<int>, outputErrors: Option<int>)

  /** `counter or 0` */
  function OrZero(counter: Option<int>): int {
    if counter.Some? then counter.value else 0
  }

  predicate CountersNatural(i: Iface) {
    OrZero(i.inputErrors) >= 0 && OrZero(i.outputErrors) >= 0
  }

  const NO_IFACE := Iface("", None, None, None, None, None, None, None, None, None, None)

  /** What a parser can return: its counters are read from digits. */
  type ParsedIface = i: Iface | CountersNatural(i) witness NO_IFACE

  datatype InterfaceRow = InterfaceRow(id: nat, deviceId: nat, iface: Iface, checkedAt: int)

  datatype BackupStatus = Success | Failed

  datatype BackupRow = BackupRow(
    id: nat, deviceId: nat, status: BackupStatus, filename: Option<string>, filePath: Option<string>,
    backupSize: Option<nat>, errorMessage: Option<string>, createdAt: int)

  /** One completed file write; the disk is the result of replaying all of them. */
  datatype Write = Write(path: string, content: string)

  datatype EventType =
    | DeviceDown | DeviceRecovered | HealthCheckFailed
    | BackupSuccess | BackupFailed
    | InterfaceDown | InterfaceRecovered | InterfaceErrorsDetected

  /** A dispatched event; `rowId` is the row that caused it, `subject` the interface name (or empty). */
  datatype Event = Event(kind: EventType, deviceId: nat, rowId: nat, subject: string)

  function OfKind(k: EventType): Event -> bool {
    (e: Event) => e.kind == k
  }

  function Count(k: EventType, events: seq<Event>): nat {
    |Filter(OfKind(k), events)|
  }

  lemma CountAppend(k: EventType, a: seq<Event>, b: seq<Event>)
    ensures Count(k, a + b) == Count(k, a) + Count(k, b)
  {
    FilterAppend(OfKind(k), a, b);
  }

  lemma CountPush(k: EventType, events: seq<Event>, added: seq<Event>, all: seq<Event>)
    requires all == events + added && |added| <= 1
    ensures Count(k, all) == Count(k, events) + (if added != [] && added[0].kind == k then 1 else 0)
  {
    CountAppend(k, events, added);
    CountAtMostOne(k, added);
  }

  lemma CountAtMostOne(k: EventType, added: seq<Event>)
    requires |added| <= 1
    ensures Count(k, added) == if added != [] && added[0].kind == k then 1 else 0
  {
    if added != [] {
      assert added == [] + [added[0]];
      FilterPush(OfKind(k), [], added[0]);
    }
  }

  datatype State = State(
    devices: seq<Device>, health: seq<HealthRow>, interfaces: seq<InterfaceRow>, backups: seq<BackupRow>,
    writes: seq<Write>, events: seq<Event>,
    nextDevice: nat, nextHealth: nat, nextInterface: nat, nextBackup: nat)

  const EMPTY := State([], [], [], [], [], [], 1, 1, 1, 1)

  /** `VENDOR_ADAPTERS.get(vendor.strip().lower())` finds an adapter. */
  predicate SupportedVendor(vendor: string) {
    Lower(Strip(vendor)) in ADAPTERS
  }

  const ADAPTERS := ["cisco", "huawei", "nokia"]

  lemma OneOfThree<T>(x: T, a: T, b: T, c: T)
    ensures x in [a, b, c] <==> x == a || x == b || x == c
  {
    assert [a, b, c][0] == a && [a, b, c][1] == b && [a, b, c][2] == c;
  }

  lemma OneOfTwo<T>(x: T, a: T, b: T)
    ensures x in [a, b] <==> x == a || x == b
  {
    assert [a, b][0] == a && [a, b][1] == b;
  }

  /** White space around the name and the case of its letters do not matter. */
  lemma SupportedExact(left: string, name: string, right: string)
    requires (forall i :: 0 <= i < |left| ==> IsSpace(left[i])) && forall i :: 0 <= i < |right| ==> IsSpace(right[i])
    requires name == "" || (!IsSpace(name[0]) && !IsSpace(name[|name| - 1]))
    ensures SupportedVendor(left + name + right)
       <==> Lower(name) == "cisco" || Lower(name) == "huawei" || Lower(name) == "nokia"
  {
    StripExact(left, name, right);
    OneOfThree(Lower(name), "cisco", "huawei", "nokia");
  }

  function UnsupportedMessage(vendor: string): string {
    "No monitoring adapter available for vendor '" + vendor + "'. Supported vendors: cisco, huawei, nokia"
  }

  const UNREACHABLE := "Device did not respond on the management port (TCP/22)"
  const MONITORING_CRASHED := "Unexpected monitoring error"
  const INTERFACES_CRASHED := "Unexpected interface monitoring error"
  const PARSE_FAILED := "Failed to parse interface data"
  const SAVE_FAILED := "Failed to save interface data to the database"
  const BACKUP_CRASHED := "Unexpected backup error"
  const WRITE_FAILED := "Failed to write backup file to disk"
  const NO_CREDENTIALS := "SSH credentials are not configured (set DEVICE_SSH_PASSWORD in .env)"
}
