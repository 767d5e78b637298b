/** The scheduled jobs: one check for every device of the inventory, with failures isolated per device. */
module Jobs {
  import opened Base
  import opened Sorting
  import opened Tables
  import M = Monitoring
  import opened System
  import A = Alarms
  import O = Outcomes
  import Adapters

  datatype Job = HealthJob | BackupJob | InterfaceJob

  /** What one device's check meets; `raises` is the case that the check function lets an exception out. */
  datatype JobInput = JobInput(
    raises: bool, health: M.HealthProbe, backup: BackupProbe, interfaces: InterfaceProbe, now: int)

  function RequestFor(job: Job, d: nat, input: JobInput): Request {
    match job
    case HealthJob => CheckHealth(d, input.health, input.now)
    case BackupJob => Backup(d, input.backup, input.now)
    case InterfaceJob => CheckInterfaces(d, input.interfaces, input.now)
  }

  function CheckStep(s: State, job: Job, d: Device, input: JobInput): State {
    if input.raises then s
    else match job
      case HealthJob => HealthStep(s, d, input.health, input.now)
      case BackupJob => BackupStep(s, d, input.backup, input.now)
      case InterfaceJob => InterfaceStep(s, d, input.interfaces, input.now)
  }

  /** A device found DOWN still counts as a successful check; only ERROR is a failed one. */
  predicate CheckSucceeds(job: Job, d: Device, input: JobInput) {
    match job
    case HealthJob => M.Diagnose(d.vendor, input.health).status != Error
    case BackupJob => BackupFailure(d.vendor, input.backup) == None
    case InterfaceJob => Discover(d.vendor, input.interfaces).Interfaces?
  }

  function Succeeds(job: Job, inputs: nat -> JobInput): Device -> bool {
    (d: Device) => !inputs(d.id).raises && CheckSucceeds(job, d, inputs(d.id))
  }

  function JobSteps(s: State, job: Job, devices: seq<Device>, inputs: nat -> JobInput): State {
    if devices == [] then s
    else
      var d := devices[|devices| - 1];
      CheckStep(JobSteps(s, job, devices[..|devices| - 1], inputs), job, d, inputs(d.id))
  }

  lemma JobStepsPush(s: State, job: Job, devices: seq<Device>, d: Device, inputs: nat -> JobInput)
    ensures JobSteps(s, job, devices + [d], inputs)
         == CheckStep(JobSteps(s, job, devices, inputs), job, d, inputs(d.id))
  {
    assert (devices + [d])[..|devices|] == devices;
  }

  /** One turn of the loop over the devices. */
  lemma JobTurn(s: State, job: Job, devices: seq<Device>, i: nat, inputs: nat -> JobInput)
    requires i < |devices|
    ensures JobSteps(s, job, devices[..i + 1], inputs)
         == CheckStep(JobSteps(s, job, devices[..i], inputs), job, devices[i], inputs(devices[i].id))
    ensures |Filter(Succeeds(job, inputs), devices[..i + 1])|
         == |Filter(Succeeds(job, inputs), devices[..i])| + (if Succeeds(job, inputs)(devices[i]) then 1 else 0)
  {
    TakePush(devices, i);
    FilterPush(Succeeds(job, inputs), devices[..i], devices[i]);
    JobStepsPush(s, job, devices[..i], devices[i], inputs);
  }

  // ---------- A job is a run of ordinary requests ----------

  function JobRequests(job: Job, devices: seq<Device>, inputs: nat -> JobInput): seq<Request> {
    if devices == [] then []
    else
      var d := devices[|devices| - 1];
      JobRequests(job, devices[..|devices| - 1], inputs) + LastRequest(job, d, inputs(d.id))
  }

  lemma CheckIsStep(s: State, job: Job, d: Device, input: JobInput)
    requires FindDevice(s.devices, d.id) == Some(d) && !input.raises
    ensures CheckStep(s, job, d, input) == Step(s, RequestFor(job, d.id, input))
  {
    match job
    case HealthJob => HealthAccepted(s, d.id, d, input.health, input.now);
    case BackupJob => BackupAccepted(s, d.id, d, input.backup, input.now);
    case InterfaceJob => InterfacesAccepted(s, d.id, d, input.interfaces, input.now);
  }

  lemma CheckKeepsDevices(s: State, job: Job, d: Device, input: JobInput)
    ensures CheckStep(s, job, d, input).devices == s.devices
  {
  }

  function LastRequest(job: Job, d: Device, input: JobInput): seq<Request> {
    if input.raises then [] else [RequestFor(job, d.id, input)]
  }

  lemma CheckIsRun(requests: seq<Request>, s: State, job: Job, d: Device, input: JobInput)
    requires s == Run(requests) && FindDevice(s.devices, d.id) == Some(d)
    ensures CheckStep(s, job, d, input) == Run(requests + LastRequest(job, d, input))
  {
    if input.raises {
      assert requests + [] == requests;
    } else {
      CheckIsStep(s, job, d, input);
      RunPush(requests, RequestFor(job, d.id, input));
    }
  }

  /** Whatever holds of every run of requests therefore also holds when the scheduler runs its jobs. */
  lemma {:induction false} JobIsRun(requests: seq<Request>, job: Job, devices: seq<Device>, inputs: nat -> JobInput)
    requires forall d :: d in devices ==> d in Run(requests).devices
    ensures JobSteps(Run(requests), job, devices, inputs) == Run(requests + JobRequests(job, devices, inputs))
    ensures JobSteps(Run(requests), job, devices, inputs).devices == Run(requests).devices
  {
    if devices == [] {
      assert requests + [] == requests;
    } else {
      var t, d := devices[..|devices| - 1], devices[|devices| - 1];
      assert d in devices;
      JobIsRun(requests, job, t, inputs);
      RunIsConsistent(requests);
      FindSelf(Run(requests).devices, d);
      JobPush(requests, job, devices, inputs);
    }
  }

  lemma JobPush(requests: seq<Request>, job: Job, devices: seq<Device>, inputs: nat -> JobInput)
    requires devices != []
    requires var t := devices[..|devices| - 1];
             && JobSteps(Run(requests), job, t, inputs) == Run(requests + JobRequests(job, t, inputs))
             && JobSteps(Run(requests), job, t, inputs).devices == Run(requests).devices
    requires var d := devices[|devices| - 1]; FindDevice(Run(requests).devices, d.id) == Some(d)
    ensures JobSteps(Run(requests), job, devices, inputs) == Run(requests + JobRequests(job, devices, inputs))
    ensures JobSteps(Run(requests), job, devices, inputs).devices == Run(requests).devices
  {
    var t, d := devices[..|devices| - 1], devices[|devices| - 1];
    var before := requests + JobRequests(job, t, inputs);
    assert requests + JobRequests(job, devices, inputs) == before + LastRequest(job, d, inputs(d.id));
    CheckIsRun(before, Run(before), job, d, inputs(d.id));
    CheckKeepsDevices(Run(before), job, d, inputs(d.id));
  }

  // ---------- The health job ----------

  function NotRaising(inputs: nat -> JobInput): Device -> bool {
    (d: Device) => !inputs(d.id).raises
  }

  function IdOf(d: Device): nat {
    d.id
  }

  function DeviceOf(r: HealthRow): nat {
    r.deviceId
  }

  /** The rows a health job appended to the table of `s`. */
  function Appended(s: State, devices: seq<Device>, inputs: nat -> JobInput): seq<HealthRow> {
    var s' := JobSteps(s, HealthJob, devices, inputs);
    if |s.health| <= |s'.health| then s'.health[|s.health|..] else []
  }

  predicate JobAccounted(s: State, devices: seq<Device>, inputs: nat -> JobInput) {
    && s.health <= JobSteps(s, HealthJob, devices, inputs).health
    && Map(DeviceOf, Appended(s, devices, inputs)) == Map(IdOf, Filter(NotRaising(inputs), devices))
    && |devices| - |Filter(Succeeds(HealthJob, inputs), devices)|
       == M.CountStatus(Error, Appended(s, devices, inputs)) + (|devices| - |Filter(NotRaising(inputs), devices)|)
  }

  lemma AccountOne(s: State, t: seq<Device>, d: Device, inputs: nat -> JobInput)
    requires JobAccounted(s, t, inputs)
    ensures JobAccounted(s, t + [d], inputs)
  {
    FilterPush(NotRaising(inputs), t, d);
    FilterPush(Succeeds(HealthJob, inputs), t, d);
    JobStepsPush(s, HealthJob, t, d, inputs);
    if !inputs(d.id).raises {
      OneMoreRow(s, JobSteps(s, HealthJob, t, inputs), d, inputs(d.id));
      MapPush(IdOf, Filter(NotRaising(inputs), t), d);
    }
  }

  lemma NothingAccounted(s: State, inputs: nat -> JobInput)
    ensures JobAccounted(s, [], inputs)
  {
  }

  lemma {:induction false} AllAccounted(s: State, devices: seq<Device>, inputs: nat -> JobInput)
    ensures JobAccounted(s, devices, inputs)
  {
    if devices == [] {
      NothingAccounted(s, inputs);
    } else {
      AllAccounted(s, devices[..|devices| - 1], inputs);
      AccountOne(s, devices[..|devices| - 1], devices[|devices| - 1], inputs);
      SplitLast(devices);
    }
  }

  /**
   * A health job appends exactly one row per device whose check does not raise, in device order, and its failed
   * count is the number of ERROR rows it appended plus the number of checks that raised.
   */
  lemma HealthJobRows(s: State, devices: seq<Device>, inputs: nat -> JobInput)
    ensures s.health <= JobSteps(s, HealthJob, devices, inputs).health
    ensures Map(DeviceOf, Appended(s, devices, inputs)) == Map(IdOf, Filter(NotRaising(inputs), devices))
    ensures |devices| - |Filter(Succeeds(HealthJob, inputs), devices)|
         == M.CountStatus(Error, Appended(s, devices, inputs)) + (|devices| - |Filter(NotRaising(inputs), devices)|)
  {
    AllAccounted(s, devices, inputs);
  }

  lemma RowAdded(added: seq<HealthRow>, row: HealthRow)
    ensures Map(DeviceOf, added + [row]) == Map(DeviceOf, added) + [row.deviceId]
    ensures M.CountStatus(Error, added + [row]) == M.CountStatus(Error, added) + (if row.status == Error then 1 else 0)
  {
    assert (added + [row])[..|added|] == added;
    MapPush(DeviceOf, added, row);
  }

  lemma DropPrefix(first: seq<HealthRow>, rows: seq<HealthRow>, row: HealthRow)
    requires first <= rows
    ensures first <= rows + [row] && (rows + [row])[|first|..] == rows[|first|..] + [row]
  {
  }

  lemma OneMoreRow(s: State, mid: State, d: Device, input: JobInput)
    requires s.health <= mid.health && !input.raises
    ensures var s' := CheckStep(mid, HealthJob, d, input);
            var added, more := mid.health[|s.health|..], s'.health[|s.health|..];
            && s.health <= s'.health
            && Map(DeviceOf, more) == Map(DeviceOf, added) + [d.id]
            && M.CountStatus(Error, more)
               == M.CountStatus(Error, added) + (if CheckSucceeds(HealthJob, d, input) then 0 else 1)
  {
    var row := M.NewRow(mid.nextHealth, d.id, M.Diagnose(d.vendor, input.health), input.now);
    assert CheckStep(mid, HealthJob, d, input).health == mid.health + [row];
    DropPrefix(s.health, mid.health, row);
    RowAdded(mid.health[|s.health|..], row);
  }

  // ---------- What counts as a success ----------

  /**
   * A health check succeeds if it finds out whether the device is up, a backup if its file is written, an interface
   * check if its text is fetched and its rows are stored.
   */
  lemma SuccessExact(job: Job, d: Device, input: JobInput)
    ensures var supported := SupportedVendor(d.vendor);
            CheckSucceeds(job, d, input) <==>
              match job
              case HealthJob =>
                supported && (!input.health.reachable || (input.health.passwordSet && input.health.session.Collected?))
              case BackupJob =>
                supported && input.backup.passwordSet && input.backup.fetch.BackupFetched? && input.backup.writable
              case InterfaceJob =>
                && supported && input.interfaces.reachable && input.interfaces.passwordSet
                && input.interfaces.discovery.Fetched?
  {
    M.StatusExact(d.vendor, input.health);
    O.FailureExact(d.vendor, input.backup);
    O.DiscoveryExact(d.vendor, input.interfaces);
  }

  // ---------- The backup job ----------

  function IsSuccess(): BackupRow -> bool {
    (r: BackupRow) => r.status == Success
  }

  function DeviceOfBackup(r: BackupRow): nat {
    r.deviceId
  }

  /** `more` is `rows` and what a backup job has added for these devices. */
  ghost predicate BackupsAccounted(
    rows: seq<BackupRow>, more: seq<BackupRow>, devices: seq<Device>, inputs: nat -> JobInput)
  {
    && rows <= more
    && Map(DeviceOfBackup, more[|rows|..]) == Map(IdOf, Filter(NotRaising(inputs), devices))
    && |Filter(Succeeds(BackupJob, inputs), devices)| == |Filter(IsSuccess(), more[|rows|..])|
  }

  lemma NewBackupStatus(id: nat, d: Device, input: JobInput)
    ensures var r := NewBackup(id, d, input.backup, input.now);
            r.deviceId == d.id && (r.status == Success <==> CheckSucceeds(BackupJob, d, input))
  {
    O.RecordExact(id, d, input.backup, input.now);
  }

  lemma BackupPush(rows: seq<BackupRow>, more: seq<BackupRow>, devices: seq<Device>, d: Device, inputs: nat -> JobInput,
                   r: BackupRow)
    requires BackupsAccounted(rows, more, devices, inputs) && !inputs(d.id).raises
    requires r.deviceId == d.id && (r.status == Success <==> CheckSucceeds(BackupJob, d, inputs(d.id)))
    ensures BackupsAccounted(rows, more + [r], devices + [d], inputs)
  {
    var added := more[|rows|..];
    assert (more + [r])[|rows|..] == added + [r];
    FilterPush(NotRaising(inputs), devices, d);
    FilterPush(Succeeds(BackupJob, inputs), devices, d);
    FilterPush(IsSuccess(), added, r);
    MapPush(DeviceOfBackup, added, r);
    MapPush(IdOf, Filter(NotRaising(inputs), devices), d);
  }

  lemma RaisingPush(
    rows: seq<BackupRow>, more: seq<BackupRow>, devices: seq<Device>, d: Device, inputs: nat -> JobInput)
    requires BackupsAccounted(rows, more, devices, inputs) && inputs(d.id).raises
    ensures BackupsAccounted(rows, more, devices + [d], inputs)
  {
    FilterPush(NotRaising(inputs), devices, d);
    FilterPush(Succeeds(BackupJob, inputs), devices, d);
  }

  lemma BackupTurn(s: State, mid: State, t: seq<Device>, d: Device, inputs: nat -> JobInput)
    requires BackupsAccounted(s.backups, mid.backups, t, inputs)
    ensures BackupsAccounted(s.backups, CheckStep(mid, BackupJob, d, inputs(d.id)).backups, t + [d], inputs)
  {
    if inputs(d.id).raises {
      RaisingPush(s.backups, mid.backups, t, d, inputs);
    } else {
      var r := NewBackup(mid.nextBackup, d, inputs(d.id).backup, inputs(d.id).now);
      NewBackupStatus(mid.nextBackup, d, inputs(d.id));
      BackupPush(s.backups, mid.backups, t, d, inputs, r);
    }
  }

  /**
   * A backup job appends one record per device whose backup does not raise, in device order, and its succeeded count is
   * the number of SUCCESS records it appended.
   */
  lemma {:induction false} BackupJobRows(s: State, devices: seq<Device>, inputs: nat -> JobInput)
    ensures BackupsAccounted(s.backups, JobSteps(s, BackupJob, devices, inputs).backups, devices, inputs)
  {
    if devices == [] {
      assert s.backups[|s.backups|..] == [];
    } else {
      var t, d := devices[..|devices| - 1], devices[|devices| - 1];
      BackupJobRows(s, t, inputs);
      BackupTurn(s, JobSteps(s, BackupJob, t, inputs), t, d, inputs);
      SplitLast(devices);
    }
  }

  // ---------- The interface job ----------

  function Flat(batches: seq<seq<InterfaceRow>>): seq<InterfaceRow> {
    if batches == [] then [] else Flat(batches[..|batches| - 1]) + batches[|batches| - 1]
  }

  /** The batch holds one row of the device for each interface in the text that its check fetched. */
  predicate Holds(batch: seq<InterfaceRow>, d: Device, input: JobInput) {
    && input.interfaces.discovery.Fetched?
    && var found := Adapters.ParseInterfaces(d.vendor, input.interfaces.discovery.text, input.interfaces.parsers);
       && |batch| == |found|
       && forall i :: 0 <= i < |batch| ==>
            batch[i].deviceId == d.id && batch[i].iface == found[i] && batch[i].checkedAt == input.now
  }

  /** One batch for each device whose check succeeded, in order. */
  ghost predicate BatchesFor(batches: seq<seq<InterfaceRow>>, devices: seq<Device>, inputs: nat -> JobInput) {
    var done := Filter(Succeeds(InterfaceJob, inputs), devices);
    |batches| == |done| && forall k :: 0 <= k < |done| ==> Holds(batches[k], done[k], inputs(done[k].id))
  }

  lemma BatchesPush(batches: seq<seq<InterfaceRow>>, devices: seq<Device>, d: Device, inputs: nat -> JobInput,
                    batch: seq<InterfaceRow>)
    requires BatchesFor(batches, devices, inputs)
    requires Succeeds(InterfaceJob, inputs)(d) ==> Holds(batch, d, inputs(d.id))
    ensures BatchesFor(if Succeeds(InterfaceJob, inputs)(d) then batches + [batch] else batches, devices + [d], inputs)
  {
    FilterPush(Succeeds(InterfaceJob, inputs), devices, d);
  }

  lemma BatchHolds(next: nat, d: Device, input: JobInput)
    requires CheckSucceeds(InterfaceJob, d, input)
    ensures Holds(Batch(next, d.id, Discover(d.vendor, input.interfaces).found, input.now), d, input)
  {
    O.DiscoveryExact(d.vendor, input.interfaces);
  }

  lemma StoredBatch(mid: State, d: Device, input: JobInput)
    requires !input.raises
    ensures CheckStep(mid, InterfaceJob, d, input).interfaces ==
              if CheckSucceeds(InterfaceJob, d, input)
              then
                mid.interfaces + Batch(mid.nextInterface, d.id, Discover(d.vendor, input.interfaces).found, input.now)
              else mid.interfaces
  {
    if CheckSucceeds(InterfaceJob, d, input) {
      O.DiscoveredStep(mid, d, input.interfaces, input.now, Discover(d.vendor, input.interfaces).found);
    } else {
      O.NothingDiscovered(mid, d, input.interfaces, input.now);
    }
  }

  lemma FlatPush(rows: seq<InterfaceRow>, batches: seq<seq<InterfaceRow>>, batch: seq<InterfaceRow>)
    ensures rows + Flat(batches + [batch]) == (rows + Flat(batches)) + batch
  {
    assert (batches + [batch])[..|batches|] == batches;
  }

  /** An interface job appends one batch for each device counted as succeeded, and nothing for any other. */
  lemma {:induction false} InterfaceJobBatches(s: State, devices: seq<Device>, inputs: nat -> JobInput)
    returns (batches: seq<seq<InterfaceRow>>)
    ensures JobSteps(s, InterfaceJob, devices, inputs).interfaces == s.interfaces + Flat(batches)
    ensures BatchesFor(batches, devices, inputs)
  {
    batches := [];
    if devices == [] {
      assert s.interfaces + [] == s.interfaces;
    } else {
      var t, d := devices[..|devices| - 1], devices[|devices| - 1];
      batches := InterfaceJobBatches(s, t, inputs);
      SplitLast(devices);
      batches := BatchesTurn(s, JobSteps(s, InterfaceJob, t, inputs), t, d, inputs, batches);
    }
  }

  lemma BatchesTurn(
    s: State, mid: State, t: seq<Device>, d: Device, inputs: nat -> JobInput, batches: seq<seq<InterfaceRow>>)
    returns (more: seq<seq<InterfaceRow>>)
    requires mid.interfaces == s.interfaces + Flat(batches) && BatchesFor(batches, t, inputs)
    ensures CheckStep(mid, InterfaceJob, d, inputs(d.id)).interfaces == s.interfaces + Flat(more)
    ensures BatchesFor(more, t + [d], inputs)
  {
    var input := inputs(d.id);
    if Succeeds(InterfaceJob, inputs)(d) {
      var batch := Batch(mid.nextInterface, d.id, Discover(d.vendor, input.interfaces).found, input.now);
      BatchHolds(mid.nextInterface, d, input);
      BatchesPush(batches, t, d, inputs, batch);
      StoredBatch(mid, d, input);
      FlatPush(s.interfaces, batches, batch);
      more := batches + [batch];
    } else {
      BatchesPush(batches, t, d, inputs, []);
      if !input.raises {
        StoredBatch(mid, d, input);
      }
      more := batches;
    }
  }
}
