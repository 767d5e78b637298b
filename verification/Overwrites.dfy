/** Runs in which two devices are backed up, and exactly when the file of the first backup holds the second one. */
module Overwrites {
  import opened Base
  import opened Tables
  import opened Storage
  import opened System

  lemma SecondDevice(s: State, a: DeviceInput, b: DeviceInput)
    requires s.devices == [NewDevice(1, a)] && s.nextDevice == 2 && a.ipAddress != b.ipAddress
    ensures Step(s, Create(b)) == s.(devices := [NewDevice(1, a), NewDevice(2, b)], nextDevice := 3)
  {
    assert ReplyTo(s, Create(b)) == Done;
    assert [NewDevice(1, a)] + [NewDevice(2, b)] == [NewDevice(1, a), NewDevice(2, b)];
  }

  lemma BothFound(devices: seq<Device>, x: Device, y: Device)
    requires devices == [x, y] && x.id == 1 && y.id == 2
    ensures FindDevice(devices, 1) == Some(x) && FindDevice(devices, 2) == Some(y)
  {
    assert x in devices && y in devices;
    FindIsPresent(devices, 1);
    FindIsPresent(devices, 2);
  }

  /** An attempt that fetches the configuration and can write it. */
  predicate Goes(probe: BackupProbe) {
    probe.passwordSet && probe.writable && probe.fetch.BackupFetched?
  }

  lemma BackupGoes(s: State, device: Device, probe: BackupProbe, now: int)
    requires SupportedVendor(device.vendor) && Goes(probe) && FindDevice(s.devices, device.id) == Some(device)
    ensures var s' := Step(s, Backup(device.id, probe, now));
            && s'.devices == s.devices && s'.nextBackup == s.nextBackup + 1
            && s'.backups == s.backups + [NewBackup(s.nextBackup, device, probe, now)]
            && s'.writes == s.writes + [BackupWrite(device, probe)]
  {
    BackupAccepted(s, device.id, device, probe, now);
    BackupFiled(s, device, probe, now, probe.fetch.config);
  }

  lemma RecordNamesFile(id: nat, device: Device, probe: BackupProbe, now: int)
    requires SupportedVendor(device.vendor) && Goes(probe)
    ensures var r := NewBackup(id, device, probe, now);
            r.deviceId == device.id && r.status == Success && r.filePath == Some(BackupWrite(device, probe).path)
    ensures BackupWrite(device, probe)
         == Write(RelativePath(device.vendor, device.hostname, probe.stamp), probe.fetch.config)
  {
  }

  /** Two devices are created and then backed up once each. */
  function TwoBackups(a: DeviceInput, b: DeviceInput, p: BackupProbe, q: BackupProbe, now: int, later: int)
    : seq<Request>
  {
    [Create(a)] + [Create(b)] + [Backup(1, p, now)] + [Backup(2, q, later)]
  }

  lemma TwoCreated(a: DeviceInput, b: DeviceInput)
    requires a.ipAddress != b.ipAddress
    ensures Run([Create(a)] + [Create(b)])
         == EMPTY.(devices := [NewDevice(1, a), NewDevice(2, b)], nextDevice := 3)
  {
    assert [] + [Create(a)] == [Create(a)];
    RunPush([], Create(a));
    RunPush([Create(a)], Create(b));
    assert EMPTY.devices + [NewDevice(1, a)] == [NewDevice(1, a)];
    SecondDevice(Run([Create(a)]), a, b);
  }

  lemma OneAndOne<T>(x: T, y: T)
    ensures [x] + [y] == [x, y]
  {
  }

  lemma FirstFiled(s: State, x: Device, y: Device, p: BackupProbe, now: int)
    requires s == EMPTY.(devices := [x, y], nextDevice := 3) && x.id == 1 && y.id == 2
    requires SupportedVendor(x.vendor) && Goes(p)
    ensures var s' := Step(s, Backup(1, p, now));
            && s'.devices == [x, y] && s'.nextBackup == 2
            && s'.backups == [NewBackup(1, x, p, now)] && s'.writes == [BackupWrite(x, p)]
  {
    BothFound(s.devices, x, y);
    BackupGoes(s, x, p, now);
    assert [] + [NewBackup(1, x, p, now)] == [NewBackup(1, x, p, now)];
    assert [] + [BackupWrite(x, p)] == [BackupWrite(x, p)];
  }

  lemma SecondFiled(s: State, x: Device, y: Device, row: BackupRow, write: Write, q: BackupProbe, later: int)
    requires s.devices == [x, y] && x.id == 1 && y.id == 2 && s.nextBackup == 2
    requires s.backups == [row] && s.writes == [write] && SupportedVendor(y.vendor) && Goes(q)
    ensures var s' := Step(s, Backup(2, q, later));
            s'.backups == [row, NewBackup(2, y, q, later)] && s'.writes == [write, BackupWrite(y, q)]
  {
    BothFound(s.devices, x, y);
    BackupGoes(s, y, q, later);
    OneAndOne(row, NewBackup(2, y, q, later));
    OneAndOne(write, BackupWrite(y, q));
  }

  lemma RunOfTwoBackups(a: DeviceInput, b: DeviceInput, p: BackupProbe, q: BackupProbe, now: int, later: int)
    requires SupportedVendor(a.vendor) && SupportedVendor(b.vendor) && a.ipAddress != b.ipAddress && Goes(p) && Goes(q)
    ensures var s := Run(TwoBackups(a, b, p, q, now, later));
            var x, y := NewDevice(1, a), NewDevice(2, b);
            && s.backups == [NewBackup(1, x, p, now), NewBackup(2, y, q, later)]
            && s.writes == [BackupWrite(x, p), BackupWrite(y, q)]
  {
    var created := [Create(a)] + [Create(b)];
    TwoCreated(a, b);
    RunPush(created, Backup(1, p, now));
    RunPush(created + [Backup(1, p, now)], Backup(2, q, later));
    var x, y := NewDevice(1, a), NewDevice(2, b);
    FirstFiled(Run(created), x, y, p, now);
    SecondFiled(Run(created + [Backup(1, p, now)]), x, y, NewBackup(1, x, p, now), BackupWrite(x, p), q, later);
  }

  lemma DiskOfTwo(v: Write, w: Write)
    ensures FileAt(v.path) in Disk([v, w])
    ensures Disk([v, w])[FileAt(v.path)] == if FileAt(v.path) == FileAt(w.path) then w.content else v.content
  {
    assert [v, w][..1] == [v] && [v][..0] == [];
    assert Disk([v]) == map[FileAt(v.path) := v.content];
  }

  /**
   * Both attempts are recorded as successes, but the file of the first record holds the configuration of the second
   * device exactly when the second and the host slug agree, and so do the vendor slugs unless the host slug is `..`.
   */
  lemma FirstFileAfterBoth(a: DeviceInput, b: DeviceInput, p: BackupProbe, q: BackupProbe, now: int, later: int)
    requires SupportedVendor(a.vendor) && SupportedVendor(b.vendor) && a.ipAddress != b.ipAddress && Goes(p) && Goes(q)
    ensures var s := Run(TwoBackups(a, b, p, q, now, later));
            && |s.backups| == 2
            && s.backups[0].deviceId == 1 && s.backups[0].status == Success && s.backups[0].filePath.Some?
            && s.backups[1].deviceId == 2 && s.backups[1].status == Success && s.backups[1].filePath.Some?
            && FileAt(s.backups[0].filePath.value) in Disk(s.writes)
            && Disk(s.writes)[FileAt(s.backups[0].filePath.value)] ==
                 (if p.stamp == q.stamp && Slugify(a.hostname) == Slugify(b.hostname)
                     && (Slugify(a.vendor) == Slugify(b.vendor) || Slugify(a.hostname) == "..")
                  then q.fetch.config else p.fetch.config)
  {
    RunOfTwoBackups(a, b, p, q, now, later);
    RecordNamesFile(1, NewDevice(1, a), p, now);
    RecordNamesFile(2, NewDevice(2, b), q, later);
    PathCollision(a.vendor, a.hostname, p.stamp, b.vendor, b.hostname, q.stamp);
    DiskOfTwo(BackupWrite(NewDevice(1, a), p), BackupWrite(NewDevice(2, b), q));
  }

  /**
   * Two devices of different vendors, both named `..` and backed up in the same second: the records name different
   * files, yet the file of the first one holds the configuration of the second device.
   */
  lemma DotDotOverwrites(a: DeviceInput, b: DeviceInput, p: BackupProbe, q: BackupProbe, now: int, later: int)
    requires SupportedVendor(a.vendor) && SupportedVendor(b.vendor) && Slugify(a.vendor) != Slugify(b.vendor)
    requires a.hostname == b.hostname == ".." && a.ipAddress != b.ipAddress
    requires Goes(p) && Goes(q) && p.stamp == q.stamp
    ensures var s := Run(TwoBackups(a, b, p, q, now, later));
            && |s.backups| == 2
            && s.backups[0].deviceId == 1 && s.backups[0].status == Success && s.backups[0].filePath.Some?
            && s.backups[0].filePath != s.backups[1].filePath
            && FileAt(s.backups[0].filePath.value) in Disk(s.writes)
            && Disk(s.writes)[FileAt(s.backups[0].filePath.value)] == q.fetch.config
  {
    DotsAreSlugs();
    FirstFileAfterBoth(a, b, p, q, now, later);
    RunOfTwoBackups(a, b, p, q, now, later);
    RecordNamesFile(1, NewDevice(1, a), p, now);
    RecordNamesFile(2, NewDevice(2, b), q, later);
    RecordedPathsDiffer(a.vendor, b.vendor, "..", p.stamp);
  }
}
