/** Backups over whole runs: the shape of every record, the files on disk, and one event per attempt. */
module BackupRuns {
  import opened Base
  import opened Sorting
  import opened Tables
  import M = Monitoring
  import I = Interfaces
  import opened Storage
  import opened System
  import T = Traces

  /** A record is SUCCESS exactly when it names its file and size and carries no error. */
  predicate Shaped(r: BackupRow) {
    && (r.status == Success <==> r.filename.Some? && r.filePath.Some? && r.backupSize.Some? && r.errorMessage.None?)
    && (r.status == Failed <==> r.filename.None? && r.filePath.None? && r.backupSize.None? && r.errorMessage.Some?)
  }

  /**
   * An attempt led from `s` to `s'` and left the record `r`: a success has written the fetched configuration, and
   * that only, to the file it names; a failure has written nothing.
   */
  predicate Attempted(s: State, s': State, probe: BackupProbe, r: BackupRow) {
    && Shaped(r) && r.id == s.nextBackup
    && match r.status
       case Failed => s'.writes == s.writes
       case Success =>
         && probe.fetch.BackupFetched?
         && r.backupSize == Some(Utf8Size(probe.fetch.config))
         && r.filePath.Some? && s'.writes == s.writes + [Write(r.filePath.value, probe.fetch.config)]
  }

  lemma NewBackupArchived(s: State, device: Device, probe: BackupProbe, now: int)
    ensures Attempted(s, BackupStep(s, device, probe, now), probe, NewBackup(s.nextBackup, device, probe, now))
  {
    match BackupFailure(device.vendor, probe)
    case None => BackupFiled(s, device, probe, now, probe.fetch.config);
    case Some(message) => BackupRefused(s, device, probe, now, message);
  }

  /** The `k`th request of a run is the attempt that left the record. */
  predicate MadeBy(requests: seq<Request>, k: nat, r: BackupRow) {
    && k < |requests| && requests[k].Backup? && requests[k].id == r.deviceId
    && Attempted(Run(requests[..k]), Run(requests[..k + 1]), requests[k].backupProbe, r)
  }

  ghost predicate AllMade(requests: seq<Request>) {
    forall row :: row in Run(requests).backups ==> exists k: nat :: MadeBy(requests, k, row)
  }

  lemma MadeStays(requests: seq<Request>, more: seq<Request>, k: nat, r: BackupRow)
    requires requests <= more && MadeBy(requests, k, r)
    ensures MadeBy(more, k, r)
  {
    assert more[..k] == requests[..k] && more[..k + 1] == requests[..k + 1];
  }

  lemma LastMade(requests: seq<Request>, before: seq<Request>, last: Request, k: nat, row: BackupRow)
    requires requests == before + [last] && k == |before| && last.Backup? && last.id == row.deviceId
    requires Attempted(Run(before), Run(requests), last.backupProbe, row)
    ensures MadeBy(requests, k, row)
  {
    PushedPrefixes(requests, before, last, k);
  }

  lemma OtherStepsKeepBackups(s: State, r: Request)
    requires !r.Backup? || ReplyTo(s, r) != Done
    ensures Step(s, r).writes == s.writes && forall row :: row in Step(s, r).backups ==> row in s.backups
  {
  }

  lemma BackupStepAdds(s: State, d: Device, probe: BackupProbe, now: int, row: BackupRow)
    requires row in BackupStep(s, d, probe, now).backups && row !in s.backups
    ensures row == NewBackup(s.nextBackup, d, probe, now)
  {
  }

  lemma RecordOf(id: nat, device: Device, probe: BackupProbe, now: int)
    ensures NewBackup(id, device, probe, now).deviceId == device.id
  {
  }

  /** A record that a step adds is that of the attempt it makes. */
  lemma NewRecord(s: State, r: Request, row: BackupRow)
    requires row in Step(s, r).backups && row !in s.backups
    ensures r.Backup? && r.id == row.deviceId && Attempted(s, Step(s, r), r.backupProbe, row)
  {
    if !r.Backup? || ReplyTo(s, r) != Done {
      OtherStepsKeepBackups(s, r);
      assert false;
    }
    FindIsPresent(s.devices, r.id);
    var device := FindDevice(s.devices, r.id).value;
    BackupAccepted(s, r.id, device, r.backupProbe, r.now);
    BackupStepAdds(s, device, r.backupProbe, r.now, row);
    NewBackupArchived(s, device, r.backupProbe, r.now);
    RecordOf(s.nextBackup, device, r.backupProbe, r.now);
  }

  lemma {:induction false} RunArchives(requests: seq<Request>)
    ensures AllMade(requests)
  {
    if requests != [] {
      var before, last := requests[..|requests| - 1], requests[|requests| - 1];
      RunArchives(before);
      SplitLast(requests);
      forall row | row in Run(requests).backups ensures exists k: nat :: MadeBy(requests, k, row) {
        if row in Run(before).backups {
          var k: nat :| MadeBy(before, k, row);
          MadeStays(before, requests, k, row);
        } else {
          RunPush(before, last);
          NewRecord(Run(before), last, row);
          LastMade(requests, before, last, |before|, row);
        }
      }
    }
  }

  lemma WritesStay(s: State, r: Request)
    ensures s.writes <= Step(s, r).writes
  {
    if r.Backup? && ReplyTo(s, r) == Done {
      var device := FindDevice(s.devices, r.id).value;
      BackupAccepted(s, r.id, device, r.backupProbe, r.now);
    } else {
      OtherStepsKeepBackups(s, r);
    }
  }

  lemma {:induction false} WritesGrow(requests: seq<Request>, k: nat)
    requires k <= |requests|
    ensures Run(requests[..k]).writes <= Run(requests).writes
  {
    if k == |requests| {
      assert requests[..k] == requests;
    } else {
      var before, last := requests[..|requests| - 1], requests[|requests| - 1];
      WritesGrow(before, k);
      assert before[..k] == requests[..k];
      WritesStay(Run(before), last);
    }
  }

  /**
   * Write number `own` went to the file of the record and has the recorded size. The file is on disk, and it still
   * holds that write unless a later one went to the same file, by this path or by another one.
   */
  predicate Kept(writes: seq<Write>, r: BackupRow, own: nat) {
    && own < |writes| && r.filePath == Some(writes[own].path) && r.backupSize == Some(Utf8Size(writes[own].content))
    && FileAt(writes[own].path) in Disk(writes)
    && (NotRewritten(writes, own) ==> Disk(writes)[FileAt(writes[own].path)] == writes[own].content)
  }

  lemma OwnWriteKept(requests: seq<Request>, k: nat, r: BackupRow)
    requires MadeBy(requests, k, r) && r.status == Success
    ensures Kept(Run(requests).writes, r, |Run(requests[..k]).writes|)
  {
    var writes, own := Run(requests).writes, |Run(requests[..k]).writes|;
    WritesGrow(requests, k + 1);
    assert writes[own] == Write(r.filePath.value, requests[k].backupProbe.fetch.config);
    DiskKeeps(writes, own);
  }

  /**
   * In every reachable state each record goes back to the attempt that made it. A success record stands for the write
   * of that very attempt, and the file it names is still on disk, with the recorded size unless it was written again.
   */
  lemma SuccessIsOnDisk(requests: seq<Request>, r: BackupRow)
    requires r in Run(requests).backups
    ensures exists k: nat :: MadeBy(requests, k, r)
              && (r.status == Success ==> Kept(Run(requests).writes, r, |Run(requests[..k]).writes|))
  {
    RunArchives(requests);
    var k: nat :| MadeBy(requests, k, r);
    if r.status == Success {
      OwnWriteKept(requests, k, r);
    }
  }

  // ---------- Events ----------

  function OfDevice(d: nat): BackupRow -> bool {
    (r: BackupRow) => r.deviceId == d
  }

  function IsBackupEvent(d: nat): Event -> bool {
    (e: Event) => e.deviceId == d && e.kind in {BackupSuccess, BackupFailed}
  }

  ghost predicate BackupTraces(s: State) {
    forall d: nat :: T.Live(s, d) ==>
      Filter(IsBackupEvent(d), s.events) == Map(BackupEvent, Filter(OfDevice(d), s.backups))
  }

  lemma BatchSendsNoBackupEvent(s: State, device: nat, found: seq<ParsedIface>, now: int, d: nat)
    ensures Filter(IsBackupEvent(d), StoreInterfaces(s, device, found, now).events)
         == Filter(IsBackupEvent(d), s.events)
  {
    var batch := Batch(s.nextInterface, device, found, now);
    DispatchDevice(s.interfaces + batch, batch, device);
    FilterSkip(IsBackupEvent(d), s.events, I.Dispatch(s.interfaces + batch, batch));
  }

  lemma HealthSendsNoBackupEvent(s: State, row: HealthRow, d: nat)
    ensures Filter(IsBackupEvent(d), StoreHealth(s, row).events) == Filter(IsBackupEvent(d), s.events)
  {
    FilterSkip(IsBackupEvent(d), s.events, M.EventsFor(M.StatusOf(M.Latest(s.health, row.deviceId)), row));
  }

  lemma StepSendsNoBackupEvent(s: State, r: Request, d: nat)
    requires !r.Backup?
    ensures Filter(IsBackupEvent(d), Step(s, r).events) == Filter(IsBackupEvent(d), s.events)
  {
    if ReplyTo(s, r) == Done && r.CheckHealth? {
      var device := FindDevice(s.devices, r.id).value;
      var finding := M.Diagnose(device.vendor, r.healthProbe);
      HealthSendsNoBackupEvent(s, M.NewRow(s.nextHealth, device.id, finding, r.now), d);
    } else if ReplyTo(s, r) == Done && r.CheckInterfaces? {
      var device := FindDevice(s.devices, r.id).value;
      if Discover(device.vendor, r.interfaceProbe).Interfaces? {
        BatchSendsNoBackupEvent(s, device.id, Discover(device.vendor, r.interfaceProbe).found, r.now, d);
      }
    }
  }

  lemma BackupSendsOneEvent(events: seq<Event>, rows: seq<BackupRow>, row: BackupRow, d: nat)
    requires Filter(IsBackupEvent(d), events) == Map(BackupEvent, Filter(OfDevice(d), rows))
    ensures Filter(IsBackupEvent(d), events + [BackupEvent(row)]) == Map(BackupEvent, Filter(OfDevice(d), rows + [row]))
  {
    assert IsBackupEvent(d)(BackupEvent(row)) <==> OfDevice(d)(row);
    FilterPush(IsBackupEvent(d), events, BackupEvent(row));
    FilterPush(OfDevice(d), rows, row);
    MapPush(BackupEvent, Filter(OfDevice(d), rows), row);
  }

  lemma BackupTraced(s: State, device: Device, probe: BackupProbe, now: int, d: nat)
    requires Filter(IsBackupEvent(d), s.events) == Map(BackupEvent, Filter(OfDevice(d), s.backups))
    ensures var s' := BackupStep(s, device, probe, now);
            Filter(IsBackupEvent(d), s'.events) == Map(BackupEvent, Filter(OfDevice(d), s'.backups))
  {
    BackupSendsOneEvent(s.events, s.backups, NewBackup(s.nextBackup, device, probe, now), d);
  }

  lemma DeletionKeepsOthers(s: State, id: nat, d: nat)
    requires d != id
    ensures Filter(OfDevice(d), DeleteStep(s, id).backups) == Filter(OfDevice(d), s.backups)
  {
    FilterImplied(OfDevice(d), OtherBackup(id), s.backups);
  }

  lemma RecordsStay(s: State, r: Request, d: nat)
    requires Consistent(s) && !r.Backup? && T.Live(Step(s, r), d)
    ensures Filter(OfDevice(d), Step(s, r).backups) == Filter(OfDevice(d), s.backups)
  {
    if r.Delete? && ReplyTo(s, r) == Done {
      T.LiveBefore(s, r, d);
      DeletionKeepsOthers(s, r.id, d);
    }
  }

  lemma StepBackupTraced(s: State, r: Request, d: nat)
    requires Consistent(s) && T.Live(Step(s, r), d)
    requires Filter(IsBackupEvent(d), s.events) == Map(BackupEvent, Filter(OfDevice(d), s.backups))
    ensures Filter(IsBackupEvent(d), Step(s, r).events) == Map(BackupEvent, Filter(OfDevice(d), Step(s, r).backups))
  {
    if !r.Backup? {
      StepSendsNoBackupEvent(s, r, d);
      RecordsStay(s, r, d);
    } else if ReplyTo(s, r) == Done {
      var device := FindDevice(s.devices, r.id).value;
      BackupAccepted(s, r.id, device, r.backupProbe, r.now);
      BackupTraced(s, device, r.backupProbe, r.now, d);
    }
  }

  lemma StepBackupTraces(s: State, r: Request)
    requires Consistent(s) && BackupTraces(s)
    ensures BackupTraces(Step(s, r))
  {
    forall d: nat | T.Live(Step(s, r), d)
      ensures Filter(IsBackupEvent(d), Step(s, r).events) == Map(BackupEvent, Filter(OfDevice(d), Step(s, r).backups))
    {
      T.LiveBefore(s, r, d);
      StepBackupTraced(s, r, d);
    }
  }

  lemma {:induction false} RunBackupTraces(requests: seq<Request>)
    ensures BackupTraces(Run(requests))
  {
    if requests != [] {
      var before := requests[..|requests| - 1];
      RunBackupTraces(before);
      RunIsConsistent(before);
      StepBackupTraces(Run(before), requests[|requests| - 1]);
    }
  }

  /** Over every run the backup events of an existing device report its attempts one by one, in order. */
  lemma OneEventPerAttempt(requests: seq<Request>, d: nat)
    requires HasDevice(Run(requests).devices, d)
    ensures Filter(IsBackupEvent(d), Run(requests).events)
         == Map(BackupEvent, Filter(OfDevice(d), Run(requests).backups))
  {
    RunBackupTraces(requests);
    assert T.Live(Run(requests), d);
  }
}
