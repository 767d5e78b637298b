# NetAutoOps: a verified model of its stateful core

NetAutoOps keeps an inventory of network devices, checks them on a schedule and on request, appends every result to a
history table, and derives everything else from those histories: the current health and interfaces of the fleet, the
alarm feed, and the events sent to an automation webhook. This project models that core and proves that the views, the
feed and the events agree with the histories over every run.

How the files fit together:

- `Tables`, `Base`, `Sorting`, `Dicts`: the rows, the events and the whole state of the backend; queries as filters and
  stable sorts; insertion-ordered dictionaries.
- `Monitoring`, `Interfaces`, `Storage`: one check, one history, one view at a time. `Latest`, `Snapshot` and `TraceOf`
  say what a history means; the lemmas beside them are independent characterisations.
- `System`: the backend as a state machine over requests (inventory changes and the three kinds of check, in any
  order). `Traces`, `BackupRuns` and `Alarms` prove facts about every run of that machine.
- `Outcomes`: what each accepted request does to the tables and which requests are refused, in terms of the request and
  of what the outside answered; it pins down the steps of `System`. `Slugs`: what becomes of the characters of a name.
- `Twins` and `Overwrites`: runs in which a listing names a port twice, and in which two devices are backed up.
- `Adapters`: which parser reads the fetched text of a vendor.
- `Jobs`: the scheduled fan-out, which is proved to be a run of ordinary requests, so everything above applies to it.
- `Database`: the services as a class whose methods update the tables in place and loop as the services do; each method
  is proved against the views and steps of the other modules.
- `Interleaving`: health checks of concurrent checkers as separate read, commit and dispatch steps in any order.
  `Exclusion`: exactly when such checks send what the history calls for, as they do when checks of one device do not
  overlap.
- `Patterns`, `Scanner`: an exact one-pass matcher for regular expressions that need no backtracking, and `re.finditer`
  for patterns anchored at line starts. `Reports` and `InterfaceFields` hold what the Cisco and Huawei parsers share;
  `Cisco` and `CiscoReport`, `Huawei` and `Nokia` are the interface parsers of the three vendors. `PortListing` says for
  any `show port` output which lines are reported.
- `Webhook`: the delivery loop. `Accounts`: users, bootstrap registration and the admin gate.

Outcomes of code outside the model are inputs: reachability, SSH sessions, fetched text, HTTP responses, timestamps and
the decoded token. A commit either succeeds or makes the check answer with its error. Only where a lemma says so
(`HealthClock`, `InterfaceClock`) the timestamps of one device's checks are assumed not to run backwards; they may tie.

Six things the code does not guarantee, and when it does:

- An interface check compares a row with its true predecessor exactly when no later row of the same batch has the same
  name (`Interfaces.PredecessorUnlessTwin`; `Twins.SpuriousRecoveryInRun` is a family of runs where it goes wrong). Over
  a run the events of an interface are those its history calls for exactly when, for each of its rows that is up, the
  last such twin is down just when the row before it is (`Traces.TwinsDecideTrace`).
- The last active admin can be removed (`Accounts.SelfDemotion`): exactly by its own request to demote or deactivate
  itself, in one step (`Accounts.LastAdminLeavesItself`) and over a run (`Accounts.AdminsLostInRun`). Once none is left
  the accounts are frozen for good (`Accounts.LockoutIsForever`).
- A `show port` line that is cut off can take later lines for its own and hide them (`Nokia.SwallowedPort`). A line is
  taken for a row exactly when it is one or is cut off at a gap and completed by the text after it
  (`PortListing.RowRunsOn`), and is then reported exactly when no cut-off line reported before it runs over it
  (`PortListing.ListingExact`).
- Overlapping health checks can report one outage as recovered twice (`Interleaving.OneOutageTwoRecoveries`). A check
  has read the row that is latest before its own exactly when no newer one of the device was committed meanwhile
  (`Interleaving.UndisturbedCheck`). Once nothing runs any more, what was sent about a device is what its history calls
  for exactly when each check that found it up had read a bad status just when the row before its own is bad
  (`Exclusion.QuietScheduleSendsTrace`); so it is if no check of the device begins inside another one and its rows are
  committed in time order, and every outage is then reported as recovered once (`Exclusion.ExclusiveChecksSendTrace`).
- The documented layout `backups/<vendor>/<hostname>/` is not kept for hostnames that slugify to `.` or `..`: the file
  is in its directory exactly when the slug is neither (`Storage.FileInHostDirectory`), and devices of two vendors both
  named `..` overwrite each other's files (`Storage.DotDotHostsShareAFile`; `Overwrites.DotDotOverwrites` is such a run).
  In general a second device's backup replaces the first one's file exactly on the terms of `Storage.PathCollision`
  (`Overwrites.FirstFileAfterBoth`).
- Huawei output cannot always be parsed piece by piece, as Cisco output can (`CiscoReport.ParseConcat`): what begins with
  a header can be parsed apart from every text of whole lines before it exactly when the interface name does not begin
  with a state word (`Huawei.ConcatExact`).

## Model

| member | source | states |
|---|---|---|
| `Monitoring.HistoryOrdered` | app/services/monitoring_service.py:182-190 | The history of a device is strictly ordered by (checked_at, id), newest first, and holds exactly its rows. |
| `Monitoring.LatestIsNewest` | app/services/monitoring_service.py:198-203 | The row picked as latest is exactly the one no other row of the device is newer than. |
| `Monitoring.LatestIsLast` | app/services/monitoring_service.py:91-92 | When rows are appended in time order the latest row is the last one appended for the device. |
| `Monitoring.PagesShowEveryRowOnce` | app/services/monitoring_service.py:182-190 | Fixed-size pages concatenate to the whole history, so every row is shown exactly once. |
| `Monitoring.TraceCounts` | app/services/monitoring_service.py:16-50 | One failure event per DOWN or ERROR row, and recoveries are the maximal bad stretches minus the one still open. |
| `Monitoring.FailureBeforeEachRecovery` | app/services/monitoring_service.py:41-44 | In the trace a history calls for, the event right before a recovery is a failure event. |
| `Monitoring.MessageExact` | app/services/monitoring_service.py:94-176 | The stored message is the first reason the check gave up for, or the failed commands of a session that went through. |
| `Monitoring.JoinExact` | app/services/monitoring_service.py:176 | Messages of several commands are joined by a semicolon and a blank. |
| `Base.LowerCharExact` | app/monitoring/vendor_adapters.py:256 | Lower case changes the ASCII capitals, by 32, and nothing else. |
| `Base.SpaceExact` | app/monitoring/vendor_adapters.py:178-181 | The ten ASCII characters of white space, by code point. |
| `Tables.SupportedExact` | app/monitoring/vendor_adapters.py:255-262 | A vendor is supported exactly when its name, without white space around it and in lower case, is one of the three. |
| `Interfaces.SnapshotIsSnapshot` | app/services/interface_service.py:176-190 | The view holds exactly the argmax row by (checked_at, id) of every interface name of the device, sorted by name. |
| `Interfaces.SnapshotUnique` | app/services/interface_service.py:176-190 | No other list satisfies that description. |
| `Base.StringLessExact` | app/services/interface_service.py:190 | The order of names: a text comes before its continuations, and otherwise the first difference decides. |
| `Interfaces.ReplayIsLatest` | app/services/interface_service.py:187-189 | A map updated after every appended row holds the argmax row of each name, in whatever order the timestamps come. |
| `Interfaces.SnapshotIsReplay` | app/services/interface_service.py:187-190 | The view computed from the whole table is the sorted values of that incrementally maintained map. |
| `Interfaces.SnapshotCoversEveryName` | app/services/interface_service.py:187-190 | Every interface name in the device's history is shown exactly once. |
| `Interfaces.ApplyFilters` | app/services/interface_service.py:161-170 | The successive list comprehensions select exactly the rows whose status, in any case of letters, and error counters match the filters given. |
| `Interfaces.ErrorFiltersPartition` | app/services/interface_service.py:166-169 | The two `has_errors` answers never overlap, and together give the listing back exactly when every listed row has a positive error counter or no negative one. |
| `Interfaces.ErrorFiltersCount` | app/services/interface_service.py:166-169 | On nonnegative counters the two filters split any listing with nothing lost or shown twice. |
| `Interfaces.PreviousIsNewestOther` | app/services/interface_service.py:48-57 | The lookup finds the newest row of the same device and name other than the row itself. |
| `Interfaces.PreviousIsLastOther` | app/services/interface_service.py:48-57 | On tables appended in time order it is the last other row of the interface. |
| `Interfaces.PredecessorUnlessTwin` | app/services/interface_service.py:48-58 | The row met is the true predecessor if and only if no later row of the same batch has the same name. |
| `Interfaces.LookupFinds` | app/services/interface_service.py:48-58 | In time order the lookup finds the last later row of the batch with the same name, and the row of the interface just before if there is none. |
| `Interfaces.EventsExact` | app/services/interface_service.py:60-85 | A row sends at most one event of each kind: down if its status is `down`, recovered if it is `up` and the row compared with is `down`, errors if one of its two counters is positive. |
| `Interfaces.SpuriousRecovery` | app/services/interface_service.py:47-73 | A first batch that names one interface as up and then as down sends a recovery although nothing was down before. |
| `Twins.SpuriousRecoveryInRun` | app/services/interface_service.py:47-73 | The run that creates a device and checks it once, on a listing with two rows for one port, reports that recovery. |
| `Interfaces.TraceCounts` | app/services/interface_service.py:60-85 | One down event per down row, one recovery per adjacent down-then-up pair, one error event per row with errors. |
| `Interfaces.DownBetweenRecoveries` | app/services/interface_service.py:60-73 | Between two recoveries in a trace lies a down event. |
| `System.StepKeeps` | app/services/device_service.py:19-82 | Every request keeps ids and addresses unique, rows attached to existing devices and counters nonnegative. |
| `System.RunIsConsistent` | app/services/device_service.py:19-82 | All of that holds in every reachable state, and a refused request changes nothing. |
| `System.CreateKeeps` | app/services/device_service.py:19-33 | An accepted creation introduces no second device with the address. |
| `System.UpdateKeeps` | app/services/device_service.py:47-75 | An accepted update, changing the address or not, keeps addresses unique and rows attached. |
| `System.DeleteKeeps` | app/models/interface.py:25-27 | Deletion cascades: no history row is left without its device. |
| `Outcomes.CreationRefused` | app/services/device_service.py:19-22 | A creation is refused exactly when a device has the address. |
| `Outcomes.DeviceCreated` | app/services/device_service.py:24-33 | The new device carries every field of the input under a new id; every other device is found as before, and no history or event changes. |
| `Outcomes.UpdateRefused` | app/services/device_service.py:48-61 | An update is refused exactly when there is no such device, or another one has the address asked for. |
| `Outcomes.DeviceUpdated` | app/services/device_service.py:63-75 | Each field of the target is the value sent, or as before if none was; every other device is found as before, and no history or event changes. |
| `Outcomes.DeviceDeleted` | app/services/device_service.py:78-82 | A deletion takes the device and its rows, and no other device, no row of another one, no file and no event. |
| `Outcomes.HealthChecked` | app/services/monitoring_service.py:81-179 | An accepted check stores one row: UP exactly when the vendor is supported, the device answers, a password is set and the session goes through; DOWN exactly when a supported device does not answer; else ERROR. |
| `Outcomes.UnreachableIsReported` | app/services/monitoring_service.py:27-33 | After any run, a check of a supported device that does not answer sends one down event about it and nothing else. |
| `Outcomes.InterfacesChecked` | app/services/interface_service.py:88-158 | A check that fetches its text appends one row per interface the vendor's parser finds in it, in order, with new ids and one time; any other check changes nothing. |
| `Outcomes.DiscoveryMessage` | app/services/interface_service.py:106-150 | The error of a check that stores nothing names the first thing that went wrong. |
| `Outcomes.BackedUp` | app/services/backup_service.py:20-131 | An accepted backup stores one record, a success exactly when the vendor is supported, a password is set, the configuration is fetched and the file can be written; its one event says which. |
| `Traces.HealthTraceExact` | app/services/monitoring_service.py:81-179 | Over every run, whatever the clock does, the health events of an existing device are the trace of its own rows if and only if each check that found it up had read a bad status just when the last stored row was bad. |
| `Traces.HealthTraceOfRun` | app/services/monitoring_service.py:81-179 | So it is in every run in which the clock does not run backwards between two health checks of that device. |
| `Traces.HealthCountsOfRun` | app/services/monitoring_service.py:16-50 | Over such runs failures equal failed rows and recoveries equal closed bad stretches. |
| `Traces.FailureBeforeRecoveryInRun` | app/services/monitoring_service.py:41-44 | In such a run the event sent about a device right before one of its recoveries is a failure event of the same device. |
| `Traces.InterfaceTraceExact` | app/services/interface_service.py:39-85 | Over every run, whatever the clock does, the events of an interface are the trace of its own rows if and only if each of its rows that is up was compared with a row that is down just when its predecessor is. |
| `Traces.TwinsDecideTrace` | app/services/interface_service.py:47-58 | With a clock that does not run backwards for the device: if and only if the last later twin in the batch of each row that is up is down just when the row before it is. |
| `Traces.InterfaceTraceOfRun` | app/services/interface_service.py:39-85 | So it is for an interface that no batch of its device names twice, and the three counts follow. |
| `Traces.RecoveriesAlternateInRun` | app/services/interface_service.py:60-73 | In such a run two recoveries of an interface have one of its down events between them. |
| `Traces.LiveBefore` | app/services/device_service.py:78-82 | No step brings an id of a deleted device back to life. |
| `BackupRuns.NewBackupArchived` | app/services/backup_service.py:61-131 | A successful attempt writes the fetched configuration, and nothing else, to the file its record names, with the size recorded; a failed one writes nothing and records the reason only. |
| `BackupRuns.RunArchives` | app/services/backup_service.py:61-131 | Over every run each record goes back to the request that made it, with that effect. |
| `BackupRuns.SuccessIsOnDisk` | app/services/backup_service.py:107-128 | The file a SUCCESS record names holds the write of that very attempt, with the recorded size, unless a later backup wrote the same file, by this path or by another; it is on disk in any case. |
| `BackupRuns.OneEventPerAttempt` | app/services/backup_service.py:20-34 | The backup events of a device report its attempts one by one, in order. |
| `Storage.SlugifyGivesSlug` | app/backup/storage.py:18-21 | A slug is nonempty, over the allowed alphabet, without an underscore at either end. |
| `Storage.SlugifyFixedPoints` | app/backup/storage.py:18-21 | The texts left unchanged are exactly the slugs, so slugging twice is slugging once. |
| `Storage.SlugUnchanged` | app/backup/storage.py:18-21 | Every slug is left as it is. |
| `Slugs.SlugIgnoresCase` | app/backup/storage.py:19 | The case of letters does not matter. |
| `Slugs.SlugIgnoresEnds` | app/backup/storage.py:19-21 | Underscores and foreign characters at the two ends do not matter. |
| `Slugs.SlugOfGaps` | app/backup/storage.py:21 | A name of nothing else becomes `unknown`. |
| `Slugs.SlugJoins` | app/backup/storage.py:20 | Foreign characters between two words, however many, become one underscore. |
| `Storage.VendorSlug` | app/backup/storage.py:33-38 | The vendor directory of a supported vendor is the name of its adapter. |
| `Storage.FileOfBackup` | app/backup/storage.py:33-42 | Where the recorded path leads once `.` is dropped and `..` is followed: into the directory of vendor and host, one level up, or two levels up. |
| `Storage.PathText` | app/backup/storage.py:35-42 | The recorded path, letter by letter, for a supported vendor. |
| `Storage.Utf8SizeExact` | app/backup/storage.py:46-49 | The recorded size is the sum of the bytes of the UTF-8 encoding of each character. |
| `Storage.PathCollision` | app/backup/storage.py:33-42 | Two backups of supported vendors use one file exactly when second and host slug agree, and the vendor slugs agree or the host slug is `..`. |
| `Storage.FileInHostDirectory` | app/backup/storage.py:24-43 | The file lies under its vendor and host directory exactly when the host slug is neither `.` nor `..`. |
| `Storage.DotDotHostsShareAFile` | app/backup/storage.py:33-43 | Two devices of different vendors whose host slug is `..` write one file in the same second, under different recorded paths. |
| `Overwrites.FirstFileAfterBoth` | app/backup/storage.py:24-49 | After two devices are created and backed up, the file of the first record holds the second configuration exactly on the terms of `PathCollision`, and the first one otherwise. |
| `Overwrites.DotDotOverwrites` | app/backup/storage.py:33-49 | Two devices of different vendors named `..`: both backups succeed under different recorded paths, and the first file holds the other device's configuration. |
| `Storage.DiskKeeps` | app/backup/storage.py:46-49 | A written file stays, and keeps its content until the same file is written again, by whatever path. |
| `Alarms.FleetFiltered` | app/services/interface_service.py:194-203 | Filtering each device and joining equals filtering the joined fleet. |
| `Alarms.FleetOrdered` | app/services/interface_service.py:194-203 | The unfiltered fleet lists every latest row of every device once, by device id and then by name. |
| `Alarms.DownAlarms` | app/services/alarm_service.py:45-55 | The first loop fills the dictionary with one alarm per down interface, keyed by row id; `FeedIsFeed` says what each alarm carries. |
| `Alarms.AddErrorsAlarms` | app/services/alarm_service.py:56-70 | The second loop adds exactly the interfaces with errors that are not down. |
| `Alarms.Reported` | app/services/alarm_service.py:57-58 | An interface with errors is already keyed exactly when it is down. |
| `Alarms.TwoPassOrdered` | app/services/alarm_service.py:22-71 | Before sorting, the passes list every current problem once: health, then down, then errors only, each in fleet order. |
| `Alarms.FeedIsFeed` | app/services/alarm_service.py:22-74 | After the stable sort the list is exactly the current problems, by time, then kind, then fleet position: each newest health row that is not UP and each latest interface row that is down or counts errors, with the time, status, name, message and counters of that very row. |
| `Alarms.FeedUnique` | app/services/alarm_service.py:22-74 | That description determines the feed. |
| `Alarms.NoProblemTwice` | app/services/alarm_service.py:57-58 | No interface, and no device's health, appears in the feed twice. |
| `Alarms.LimitDropsOldest` | app/services/alarm_service.py:73-74 | A smaller limit shows a prefix of a larger one, as long as the limit allows, and nothing dropped is newer than anything kept. |
| `Alarms.AlarmsNameExistingDevices` | app/services/alarm_service.py:33-54 | Every alarm carries the current name and address of an existing device. |
| `Alarms.AlarmIffNotUp` | app/services/alarm_service.py:24-43 | A device has a health alarm exactly when its latest row is not UP. |
| `Alarms.AlarmAfterCheck` | app/services/alarm_service.py:24-43 | Right after a check the untruncated feed has a health alarm for the device if and only if the check did not find it UP. |
| `Database.FirstPerNameStep` | app/services/interface_service.py:188-189 | `setdefault` over name-grouped, newest-first rows keeps the newest row of every name met so far. |
| `Database.ValuesAreLatest` | app/services/interface_service.py:187-190 | The sorted values of the finished dictionary are the latest rows of the device. |
| `Database.Store.GetDeviceInterfaces` | app/services/interface_service.py:173-191 | The sort-then-setdefault loop yields exactly the latest row of each name that passes the filters given, by name. |
| `Database.Store.GetFleetInterfaces` | app/services/interface_service.py:194-203 | The nested loops compute the fleet view. |
| `Database.Store.GetFleetHealth` | app/services/monitoring_service.py:193-205 | Every device, by id, with its newest health row. |
| `Database.Store.CollectHealthAlarms` | app/services/alarm_service.py:24-43 | The first alarm loop, with its skips and default messages. |
| `Database.Store.GetRecentAlarms` | app/services/alarm_service.py:8-74 | The imperative merge returns the limit-long prefix of the unique feed, whose alarms carry the times and states of the rows they report. |
| `Database.Store.CreateDevice` | app/services/device_service.py:19-33 | Refines the creation step, refusing a taken address. |
| `Database.Store.UpdateDevice` | app/services/device_service.py:47-75 | Refines the update step with its three answers; `Outcomes.DeviceUpdated` says what that step changes. |
| `Database.Store.DeleteDevice` | app/services/device_service.py:78-82 | Refines the cascading deletion step. |
| `Database.Store.RunHealthCheck` | app/services/monitoring_service.py:81-179 | Every way through the check stores exactly one row and sends its one event, if any; the row is UP, DOWN or ERROR exactly as the network and the settings answered. |
| `Database.Store.DispatchHealthEvent` | app/services/monitoring_service.py:16-50 | The branches append exactly the event the transition calls for. |
| `Database.Store.DispatchInterfaceRow` | app/services/interface_service.py:48-85 | One turn of the loop: lookup, down or recovered, then errors. |
| `Database.Store.DispatchInterfaceEvents` | app/services/interface_service.py:39-85 | The loop sends the events of all new rows against the table that already holds them. |
| `Adapters.CallParser` | app/services/interface_service.py:136-137 | The fetched text is read by the parser of the vendor. |
| `Adapters.ParserOfVendor` | app/monitoring/vendor_adapters.py:212-252 | Each vendor's text is read by the parser of that vendor. |
| `Adapters.NamesComeFromText` | app/monitoring/vendor_adapters.py:103-209 | For each supported vendor, a batch has a name at most once exactly when the headers or rows of the fetched text do. |
| `Database.Store.RunInterfaceCheck` | app/services/interface_service.py:88-158 | A check stores one row per interface parsed from the fetched text and sends their events, or returns an error, exactly when something went wrong before, and changes nothing. |
| `Database.Store.SaveBackup` | app/services/backup_service.py:37-58 | Appends the record and reports success or failure. |
| `Database.Store.RunBackup` | app/services/backup_service.py:61-131 | Every way through the attempt leaves exactly the record and the file the step prescribes, a success exactly when all went well. |
| `Database.Store.Handle` | app/services/device_service.py:40-82 | A request of a client has the reply and the effect of one step of the state machine. |
| `Database.Store.RunForAllDevices` | app/scheduler/jobs.py:15-67 | processed = succeeded + failed = number of devices, and the tables are those of the per-device checks in order. |
| `Jobs.JobIsRun` | app/scheduler/jobs.py:39-60 | A job is a run of ordinary requests, so every whole-run theorem holds of scheduled work. |
| `Jobs.HealthJobRows` | app/scheduler/jobs.py:70-83 | A health job appends one row per device that does not raise, in order; its failures are the ERROR rows plus the raises. |
| `Jobs.BackupJobRows` | app/scheduler/jobs.py:86-93 | A backup job appends one record per device that does not raise, in order; its succeeded count is the SUCCESS records it appended. |
| `Jobs.InterfaceJobBatches` | app/scheduler/jobs.py:96-103 | An interface job appends one batch, the interfaces in the fetched text, for each device counted as succeeded, and nothing for any other. |
| `Jobs.SuccessExact` | app/scheduler/jobs.py:70-103 | What counts as a success of each job, in terms of what the outside answered. |
| `Interleaving.ScheduleKeeps` | app/services/monitoring_service.py:81-179 | In every schedule each committed row awaits its dispatch at one checker or was dispatched exactly once. |
| `Interleaving.EventsMapToRows` | app/services/monitoring_service.py:16-50 | In every schedule events map injectively to committed rows of the matching status. |
| `Interleaving.RecoveryJustified` | app/services/monitoring_service.py:41-50 | A recovery goes back to a DOWN or ERROR row of the device committed before that check began. |
| `Interleaving.FailuresCounted` | app/services/monitoring_service.py:27-40 | Failure events never outnumber failed rows, and agree exactly when no failed row awaits dispatch, so at quiescence. |
| `Interleaving.LatestStays` | app/services/monitoring_service.py:91-92 | Appended rows leave the latest row of a device alone exactly when it is newer than all of them of that device. |
| `Interleaving.UndisturbedCheck` | app/services/monitoring_service.py:91-92 | In every schedule a check has read the row that is latest before its own if and only if no newer row of the device was committed between its read and its commit. |
| `Interleaving.OneOutageTwoRecoveries` | app/services/monitoring_service.py:41-50 | Overlapping checks can report one bad stretch as recovered twice. |
| `Interleaving.SequentialEvent` | app/services/monitoring_service.py:41-50 | A committed row is reported as in a sequential run if and only if it is not UP, or the row read and the true predecessor are both bad or both not. |
| `Exclusion.ExclusiveCheck` | app/services/monitoring_service.py:91-179 | If checks of a device do not overlap and commit in time order, each sends what it would send in a sequential run. |
| `Exclusion.QuietScheduleSendsTrace` | app/services/monitoring_service.py:16-50 | In every schedule that has come to rest, exactly the events the history of a device calls for have been sent, in some order, if and only if each check that found it up read a bad status just when the row before its own is bad. |
| `Exclusion.ExclusiveChecksSendTrace` | app/services/monitoring_service.py:16-50 | If checks of a device do not overlap and commit in time order, that is so, and recoveries are the closed bad stretches. |
| `Exclusion.PermutationSends` | app/services/monitoring_service.py:16-50 | The order in which committed rows are dispatched does not change which events are sent. |
| `Webhook.SendWebhook` | app/alerts/webhook_client.py:41-95 | Every attempt before the last one made met a timeout, a connection error or a server error; fewer than n are made only if the last is none of these, and it decides the outcome; the sleeps are a linear backoff with none after the last attempt. |
| `Webhook.BackoffTotal` | app/alerts/webhook_client.py:90-91 | The total sleep of k sleeps is the base times k(k+1)/2. |
| `Webhook.FirstDecisive` | app/alerts/webhook_client.py:60-84 | The specification: the first attempt that is an answer below 500 or an uncaught exception, every earlier one being a timeout, a connection error or a server error. |
| `Webhook.DeliverEvent` | app/alerts/event_service.py:11-41 | Delivery is confirmed if and only if some attempt within the limit succeeds and every one before it met a timeout, a connection error or a server error. |
| `Accounts.RunKeeps` | app/services/user_service.py:30-50 | Usernames, addresses and ids stay unique over every run. |
| `Accounts.AccountsOnlyGrow` | app/services/user_service.py:30-85 | No account ever disappears or changes its name. |
| `Accounts.BootstrapOnce` | app/api/auth.py:31-47 | Open registration succeeds at most once, and the account it makes is an admin. |
| `Accounts.RegistrationReply` | app/api/auth.py:21-49 | Who may register: anyone without a token while there is no account, an active admin afterwards; the name and the address must be new. |
| `Accounts.AccountRegistered` | app/services/user_service.py:36-50 | The new account is active and carries what was sent, its role included, except that the first account is an admin. |
| `Accounts.UpdateReply` | app/api/auth.py:71-81 | Who may change an account: an active admin, if the account exists. |
| `Accounts.AccountUpdated` | app/services/user_service.py:75-85 | An update changes the fields sent of the account it names, and nothing else of any account. |
| `Accounts.EveryAccountHasACreator` | app/api/auth.py:31-49 | Every later account was created by an account active, admin and trusted at that moment. |
| `Accounts.AdminsAreTrusted` | app/api/auth.py:31-49 | Every admin goes back to the bootstrap account by a chain of grants. |
| `Accounts.AdminRemains` | app/services/user_service.py:75-85 | A request takes the last active admin away exactly when it is an accepted update that demotes or deactivates the only one. |
| `Accounts.LastAdminLeavesItself` | app/api/auth.py:71-81 | That request is exactly one made by the last active admin about itself. |
| `Accounts.AdminsLostInRun` | app/api/auth.py:21-81 | A run ends with accounts but no active admin if and only if, at some request of it, the last one resigned. |
| `Accounts.SelfDemotion` | app/api/auth.py:71-81 | Two requests suffice to leave no admin at all. |
| `Accounts.Lockout` | app/api/auth.py:33-44 | Without an active admin every request is refused. |
| `Accounts.LockoutIsForever` | app/api/auth.py:33-44 | From then on no sequence of requests changes any account. |
| `Accounts.ChangesTakeEffectAtOnce` | app/api/deps.py:16-39 | A deactivated account is refused on its very next request, a demoted one at the next admin gate. |
| `Accounts.FindsByName` | app/services/user_service.py:60-61 | A token finds the one account of its name, if that account is active. |
| `Accounts.AccountStore.CreateUser` | app/services/user_service.py:30-50 | Stores the account, or nothing: a taken username is reported first, a taken email otherwise. |
| `Accounts.AccountStore.Register` | app/api/auth.py:21-49 | Refines the registration step with its replies. |
| `Accounts.AccountStore.PatchUser` | app/api/auth.py:71-81 | Refines the update step behind the admin gate. |
| `Patterns.MatchExact` | app/monitoring/vendor_adapters.py:92-96 | For a deterministic expression the one-pass matcher finds exactly the only way to cut the text. |
| `Patterns.MatchSeam` | app/monitoring/vendor_adapters.py:92-96 | A match in text that ends a line does not depend on what follows, unless white space leads there. |
| `Patterns.SeamSplit` | app/monitoring/vendor_adapters.py:92-181 | A match in text that ends a line either stays in it or is cut off in white space and completed by what follows. |
| `Patterns.MatchPrefix` | app/monitoring/vendor_adapters.py:178-181 | After parts that fit the first pieces, the matcher stands exactly where those parts end. |
| `Patterns.BreakIsInPart` | app/monitoring/vendor_adapters.py:93-94 | When one piece may hold line breaks, every break of a match lies in that part. |
| `Scanner.FindIterConcat` | app/monitoring/vendor_adapters.py:104 | The matches of whole lines followed by independent text are those of both, the latter moved along. |
| `Scanner.HitsInOrder` | app/monitoring/vendor_adapters.py:104 | Matches stand at line starts, in increasing order, with the groups found there. |
| `Scanner.HitsExact` | app/monitoring/vendor_adapters.py:196 | A position is found exactly when it is a line start that matches and no match found before runs over it. |
| `Scanner.FindIterEnd` | app/monitoring/vendor_adapters.py:195 | A pattern that ignores a line break at the end of the text finds the same matches whether or not the last line is terminated. |
| `Scanner.EveryMatchIsHit` | app/monitoring/vendor_adapters.py:104 | If matches cannot begin inside matches, every line start that matches is found. |
| `Cisco.HeaderIsDeterministic` | app/monitoring/vendor_adapters.py:92-96 | The header expression needs no backtracking. |
| `Cisco.HeaderExact` | app/monitoring/vendor_adapters.py:92-96 | The matcher accepts exactly the headers, written out letter by letter, with the only name, states and length they allow. |
| `Cisco.HeaderIsLocal` | app/monitoring/vendor_adapters.py:92-96 | No header straddles a line end unless the text behind it begins with the protocol clause. |
| `Cisco.HeadersDoNotNest` | app/monitoring/vendor_adapters.py:92-96 | No header begins on a line inside another header. |
| `CiscoReport.ParseCiscoInterfaces` | app/monitoring/vendor_adapters.py:103-132 | The loop over the headers yields the record of each block, in order. |
| `CiscoReport.HeadersAreAllMatches` | app/monitoring/vendor_adapters.py:104 | There is a record for a position exactly when it is a line start at which the header matches. |
| `CiscoReport.StatesAreNormal` | app/monitoring/vendor_adapters.py:99-100 | Both states are "up" or "down", and "up" exactly when the header said so; every other field is what the searches found in the block. |
| `CiscoReport.HeaderReadBack` | app/monitoring/vendor_adapters.py:92-123 | Any header, whatever follows it, is read back: its name, administratively up exactly when its first state is `up`, and its second state. |
| `CiscoReport.BlocksTile` | app/monitoring/vendor_adapters.py:106-108 | The blocks tile the output from the first header to the end, one per record, each beginning with its header. |
| `CiscoReport.ParseConcat` | app/monitoring/vendor_adapters.py:103-132 | Parsing is a homomorphism over output that ends a line followed by output that begins with a header. |
| `CiscoReport.RewriteBlock` | app/monitoring/vendor_adapters.py:106-131 | Rewriting one block without creating or destroying headers changes only that record. |
| `Reports.ParseConcat` | app/monitoring/vendor_adapters.py:106-108 | The same for any header expression that is local and does not nest. |
| `Reports.BlockInPlace` | app/monitoring/vendor_adapters.py:106-108 | A block stands between whole lines and nothing or the next header. |
| `Huawei.HeaderExact` | app/monitoring/vendor_adapters.py:135-139 | The matcher accepts exactly the headers, written out letter by letter, with the line break before the protocol clause, and the only name, states and length they allow. |
| `Huawei.ParseHuaweiInterfaces` | app/monitoring/vendor_adapters.py:142-175 | The loop over the headers yields the record of each block, in order. |
| `Huawei.StatesAreNormal` | app/monitoring/vendor_adapters.py:161-165 | Each record has the name of its header, and its states are "up" exactly when the header said so, else "down"; every other field is what the searches found in the block. |
| `Huawei.HeaderReadBack` | app/monitoring/vendor_adapters.py:135-165 | Any header, whatever follows it, is read back: its name, administratively up exactly when its first state is `up`, and its second state. |
| `Huawei.ConcatExact` | app/monitoring/vendor_adapters.py:135-148 | Output that begins with a header can be parsed apart from all whole lines before it if and only if the name does not begin, in any case of letters, with `up`, `down`, `:up` or `:down`. |
| `Nokia.ParseNokiaInterfaces` | app/monitoring/vendor_adapters.py:184-209 | The loop over the rows yields the record of each, in order, with all other fields absent. |
| `Nokia.RowExact` | app/monitoring/vendor_adapters.py:178-181 | The matcher accepts exactly the rows, written out letter by letter, word boundary included, with the only name, states and length they allow. |
| `Nokia.CompleteRowsAreLocal` | app/monitoring/vendor_adapters.py:178-209 | Complete rows and lines not beginning with a digit are parsed the same whatever follows, and do not disturb what follows. |
| `Nokia.ParseConcat` | app/monitoring/vendor_adapters.py:184-209 | Output that ends a line can be parsed apart from text that cannot complete a gap of a row. |
| `Nokia.RoundTrip` | app/monitoring/vendor_adapters.py:178-209 | Rendered complete rows, with any lines not beginning with a digit between them, are parsed back one by one: their names, their states in lower case, and every other field absent. |
| `Nokia.IncompleteRowSwallows` | app/monitoring/vendor_adapters.py:178-181 | A complete row directly after a cut-off one is lost, and its administrative state is reported as the operational state of the cut-off one. |
| `Nokia.SwallowedPort` | app/monitoring/vendor_adapters.py:178-181 | A concrete listing of two ports where this happens. |
| `PortListing.CutOffLine` | app/monitoring/vendor_adapters.py:178-209 | A line cut off at a gap is taken for a row exactly when the text after it, of whatever kind, completes it. |
| `PortListing.CutOffRow` | app/monitoring/vendor_adapters.py:178-209 | For a line cut off after its administrative state: exactly when a token, a gap, `Up` or `Down` and a word boundary follow; name and state are its own. |
| `PortListing.RowRunsOn` | app/monitoring/vendor_adapters.py:178-209 | Any line is taken for a row if and only if it is one by itself or is cut off at a gap and completed by the text after it. |
| `PortListing.RowsEnd` | app/monitoring/vendor_adapters.py:178-196 | The rows found are the same whether or not the last line of the output is terminated. |
| `PortListing.LinesJoined` | app/monitoring/vendor_adapters.py:195 | Any output, its last line terminated, is its lines joined by line breaks, and no line holds one. |
| `PortListing.ListingExact` | app/monitoring/vendor_adapters.py:178-209 | For every output, a line is reported if and only if it is taken for a row and no cut-off line reported before it runs over it. |
| `PortListing.CompleteRowIsReported` | app/monitoring/vendor_adapters.py:178-209 | For every output, a complete row is lost exactly when a cut-off line reported before it runs over it. |
| `PortListing.HitIsLine` | app/monitoring/vendor_adapters.py:178-209 | For every output, each reported port begins a line of it. |

## Left out

- The scalar parsers (version, CPU, memory): single searches.
- CiscoReport.ParseCiscoInterfaces: the field searches inside a block are a function of the block, see below.
- Huawei.ParseHuaweiInterfaces: likewise.
- Adapters.CallParser: the same two functions (`Adapters.Parsers`) are its parameters.
- InterfaceFields.ReadWith: the searches for description, address, speed, duplex, rates and errors are one function of
  the block (`Extract`), assumed only to yield nonnegative counters.
- Patterns.Match: letter case, digits, word characters and white space are ASCII; Unicode classes and case folding are
  not modelled (also in `Slugify`, `Strip` and `Lower`).
- SSH and TCP sessions, HTTP, password hashing and token decoding: their results are inputs.
- SQLAlchemy sessions, column limits, and commits that raise in the middle of a health check or a backup; an interface
  check whose save fails is modelled as its error answer.
- System.RunIsConsistent: identifiers are unbounded and never reused; the race caught by IntegrityError is not modelled
  because inventory and account requests are atomic.
- System.ReplyTo: updates carry present values only; explicit nulls are left out.
- System.Batch: all rows of one interface batch carry one timestamp.
- Traces.InterfaceTraceOfRun: events carry their kind, device, causing row and interface name, not the rest of the payload.
- Alarms.FeedIsFeed: messages are kept as data (kind, interface name, counters), not rendered as text.
- Interleaving.ScheduleKeeps: only health checks are interleaved; devices are not deleted while checks run.
- Backup listings: ordered by timestamp alone, so their pages tile only for distinct timestamps.
- Jobs.HealthJobRows: a check that raises is taken to have stored nothing.
- Nokia.IncompleteRowSwallows: one case of the general `PortListing.ListingExact`.
- Partial file writes and encodings that fail; a write happens completely or not at all.
- Storage.PathCollision: creating directories, symbolic links and file systems that ignore case are not modelled.
- APScheduler, the FastAPI routers and Pydantic schemas, logging, configuration, login, and the React frontend.
