# Device manager: USB hot-plug detection and the driver install queue

This project models two pieces of the deepin device manager in Dafny and
proves properties of them.

**The USB hot-plug detector of the device-manager service**
(`HotPlug`, over `QtText`). It runs `hwinfo --usb` and cuts the output into
blocks at blank lines. Each block is parsed into a map of `key: value`
pairs. Blocks with at most `LEAST_NUM` (10) lines are dropped, and so are
hubs and blocks without a `SysFS BusID`. The remaining devices are keyed by
their bus id. A plug or unplug counts as settled when there are fewer
devices than stored, or when a new device appeared that is not a disk still
waiting for its `Capacity`. A settled change replaces the stored snapshot.

**The driver-management page of the device manager** (`DriverPage`). The
page holds:

- the list of drivers with their statuses;
- the queue of driver positions selected for installation;
- the driver currently being installed;
- static success and failure counters;
- the three position lists a scan sorts the drivers into (missing,
  outdated, up to date).

The model covers the queue operations (add, remove, check and uncheck a
row) and the install cycle (start the head, download finished, install
finished with the tally). It also covers the scan: the guard that refuses
to rescan during an install, clearing all data, the classification of a
finished scan, and the choice of tables to show.

Modelling choices:

- `QString::split` keeps empty parts and cuts at non-overlapping
  occurrences from left to right. `QString::trimmed` strips the characters
  `QChar::isSpace` accepts. Both are written out in `QtText`.
- A QMap read through the non-const `operator[]` inserts an empty value.
  `getMapInfo` reads `mapInfo["Hardware Class"]` that way, so every map it
  fills past the line count holds a `Hardware Class` key (`FilledMap`).
  Because of this, the `curUsbInfo[key]["Hardware Class"]` read in
  `isUsbDevicesChanged` never changes a device (`KeyedByBusId`).
- Inserting into a QMap is a left fold (`InsertAll`): a later entry replaces
  an earlier one with the same key.
- `isUsbDevicesChanged` walks the current bus ids in QMap (sorted) order.
  The model picks them in any order. The verdict and the new state do not
  depend on the order.
- A `DriverInfo*` is a position in the list of statuses. `mp_CurDriverInfo`
  is an optional position. `clearAllData` deletes the `DriverInfo` objects,
  and the model sets the position to none.
- The two function-local static counters of `slotInstallProgressFinished`
  are fields of the page. A ghost log of finished outcomes ties them
  together.
- Whatever the page reads from widgets or the scanner thread is a
  parameter:
  - "a view has a disabled item";
  - "the scanner is running";
  - the number of devices found;
  - the statuses the scanner wrote;
  - the rows that are checked.

  Whatever it tells widgets comes back as a result: the tables to show and
  the tally to report.
- The install-all button state is a field. The page's constructor does not
  set it, and the model starts it disabled.
- `slotScanFinished` appends `m_ListDriverInfo.size() - 1` to the list
  chosen for every driver, not the driver's own position. The model keeps
  this as written. In this file only the sizes of those lists are read
  (`showTables`, `isFirstScan`), and those sizes are right.

## Model

| member | source | states |
|---|---|---|
| QtText.Split | deepin-devicemanager-server/src/HotPlug/DetectThread.cpp:82 | `QString::split` always yields at least one part and never more than one part per character plus one |
| QtText.JoinSplit | deepin-devicemanager-server/src/HotPlug/DetectThread.cpp:93 | joining the parts of a split with the separator gives back the original string, so splitting loses nothing |
| QtText.SplitPartsAreFree | deepin-devicemanager-server/src/HotPlug/DetectThread.cpp:100-101 | no part of a split contains the separator: every occurrence was cut |
| QtText.SplitFirstCut | deepin-devicemanager-server/src/HotPlug/DetectThread.cpp:82 | `QString::split` cuts left to right: with several parts, the separator occurs right after the first part and nowhere before it, and the other parts are the split of what follows that occurrence |
| QtText.SplitOverlappingSeparator | deepin-devicemanager-server/src/HotPlug/DetectThread.cpp:82 | a self-overlapping separator is cut at its leftmost occurrence: three line feeds split on a blank line give an empty part and a part holding the stray line feed |
| QtText.SplitWithoutSep | deepin-devicemanager-server/src/HotPlug/DetectThread.cpp:100-101 | a string without the separator splits into itself alone |
| QtText.TrimStart | deepin-devicemanager-server/src/HotPlug/DetectThread.cpp:103 | the result is a suffix of the input, everything dropped is white space, and the result does not start with white space |
| QtText.TrimEnd | deepin-devicemanager-server/src/HotPlug/DetectThread.cpp:103 | the result is a prefix of the input, everything dropped is white space, and the result does not end with white space |
| QtText.Trimmed | deepin-devicemanager-server/src/HotPlug/DetectThread.cpp:103 | `QString::trimmed`: the result is an infix of the input with only white space around it, and it neither starts nor ends with white space |
| QtText.TrimmedIdempotent | deepin-devicemanager-server/src/HotPlug/DetectThread.cpp:103 | trimming a trimmed key or value changes nothing |
| HotPlug.LineEntrySplitsOnce | deepin-devicemanager-server/src/HotPlug/DetectThread.cpp:100-103 | a line without ": " gives no entry; a line that gives one holds ": " exactly once, and the entry is the trimmed text before it and the trimmed text after it |
| HotPlug.InsertLines | deepin-devicemanager-server/src/HotPlug/DetectThread.cpp:99-104 | the line loop builds exactly the parsed map of the block's lines |
| HotPlug.InsertAllLastWins | deepin-devicemanager-server/src/HotPlug/DetectThread.cpp:99-104 | after a run of `QMap::insert` calls, a key is present iff some entry has it, and its value is the value of the last entry with that key |
| HotPlug.ParseLinesLastWins | deepin-devicemanager-server/src/HotPlug/DetectThread.cpp:99-104 | a key is in a block's map iff some line splits on ": " into exactly two words with that trimmed key, and the last such line gives the value |
| HotPlug.FilledMap | deepin-devicemanager-server/src/HotPlug/DetectThread.cpp:99-107 | the filled map has every parsed entry plus a `Hardware Class` key, which is empty when no line gave one, as the inserting `operator[]` leaves it |
| HotPlug.BlockInfo | deepin-devicemanager-server/src/HotPlug/DetectThread.cpp:91-117 | a block is accepted iff it has more than 10 lines, its hardware class is not `hub` and it has a `SysFS BusID`; an accepted block's map is its filled map and has both keys |
| HotPlug.GetMapInfo | deepin-devicemanager-server/src/HotPlug/DetectThread.cpp:91-117 | returns true exactly for accepted blocks; the out map stays empty for short blocks and is otherwise the filled map, even when the block is rejected |
| HotPlug.BlockEntry | deepin-devicemanager-server/src/HotPlug/DetectThread.cpp:84-87 | an accepted block contributes its map under the map's own `SysFS BusID`; a rejected block contributes nothing |
| HotPlug.SnapshotLastWins | deepin-devicemanager-server/src/HotPlug/DetectThread.cpp:82-88 | a bus id is in the snapshot iff some accepted block has it; the stored device is the last such block and records that same bus id |
| HotPlug.SnapshotKeyed | deepin-devicemanager-server/src/HotPlug/DetectThread.cpp:82-88 | every device of a snapshot is stored under its own bus id and has a `Hardware Class` entry |
| HotPlug.CurHwinfoUsbInfo | deepin-devicemanager-server/src/HotPlug/DetectThread.cpp:75-89 | the loop over the blank-line blocks builds exactly the snapshot of the output, and that snapshot is keyed by bus id |
| HotPlug.PendingDisk | deepin-devicemanager-server/src/HotPlug/DetectThread.cpp:60-61 | a disk still waiting for its capacity has a `Hardware Class` entry and no `Capacity` entry |
| HotPlug.NewSettledDevice | deepin-devicemanager-server/src/HotPlug/DetectThread.cpp:57-62 | a device that counts as newly plugged means the current bus ids differ from the stored ones |
| HotPlug.Settled | deepin-devicemanager-server/src/HotPlug/DetectThread.cpp:50-62 | when no new bus id appeared, a change is reported iff devices were lost; with as many devices as stored, a reported change means the bus ids differ |
| HotPlug.SettledIrreflexive | deepin-devicemanager-server/src/HotPlug/DetectThread.cpp:44-67 | an unchanged device set is never reported as a change |
| HotPlug.UnsettledKeepsDevices | deepin-devicemanager-server/src/HotPlug/DetectThread.cpp:55-66 | when no change is reported and no disk is pending, the current bus ids are exactly the stored ones |
| HotPlug.DetectThread.constructor | deepin-devicemanager-server/src/HotPlug/DetectThread.cpp:9-19 | the detector starts with the snapshot of the first hwinfo output |
| HotPlug.DetectThread.UpdateMemUsbInfo | deepin-devicemanager-server/src/HotPlug/DetectThread.cpp:69-73 | the stored snapshot becomes exactly the given one |
| HotPlug.DetectThread.IsUsbDevicesChanged | deepin-devicemanager-server/src/HotPlug/DetectThread.cpp:44-67 | reports a change iff there are fewer devices than stored or a new bus id is not a disk without `Capacity`; a change stores the fresh snapshot, otherwise the stored one stays; keying by bus id is preserved |
| DriverPage.Enqueued | deepin-devicemanager/src/Page/PageDriverManager.cpp:677-687 | after selecting an index it is queued; the queue gains only that index, grows by one only if it was absent, and keeps the earlier order as its prefix |
| DriverPage.EnqueuedKeepsDistinct | deepin-devicemanager/src/Page/PageDriverManager.cpp:677-687 | selecting never queues an index twice |
| DriverPage.RemovedFirst | deepin-devicemanager/src/Page/PageDriverManager.cpp:692-697 | deselecting an index that is not queued leaves the queue as it is, and otherwise shortens it by one |
| DriverPage.RemovedFirstAt | deepin-devicemanager/src/Page/PageDriverManager.cpp:692-697 | deselecting cuts the queue at the first position holding the index, keeping the rest in order |
| DriverPage.RemovedFirstMultiset | deepin-devicemanager/src/Page/PageDriverManager.cpp:692-697 | deselecting removes exactly one occurrence of the index when there is one |
| DriverPage.RemovedFirstKeepsDistinct | deepin-devicemanager/src/Page/PageDriverManager.cpp:690-703 | on a duplicate-free queue, deselecting removes the index altogether and keeps the queue duplicate-free |
| DriverPage.OccurrencesZero | deepin-devicemanager/src/Page/PageDriverManager.cpp:231-240 | a status gets no entry in its list iff no driver has it |
| DriverPage.OutcomesSplit | deepin-devicemanager/src/Page/PageDriverManager.cpp:172-205 | every finished install is counted as exactly one success or one failure |
| DriverPage.TallyStep | deepin-devicemanager/src/Page/PageDriverManager.cpp:176-180 | one more finished install adds one to exactly one of the two tallies |
| DriverPage.ClassifiedAtMostOnce | deepin-devicemanager/src/Page/PageDriverManager.cpp:233-239 | a driver is sorted into at most one of the three lists, so together they hold at most one entry per driver |
| DriverPage.PageDriverManager.constructor | deepin-devicemanager/src/Page/PageDriverManager.cpp:26-39 | the page starts with no drivers, no current driver, empty lists and zero counters |
| DriverPage.PageDriverManager.IsInstalling | deepin-devicemanager/src/Page/PageDriverManager.cpp:90-93 | an install counts as in progress only while a view has a disabled item, and never with an empty queue; the same guard is written inline at lines 98, 124 and 137 |
| DriverPage.PageDriverManager.IsFirstScan | deepin-devicemanager/src/Page/PageDriverManager.cpp:85-88 | with all three lists empty, the page shows the up-to-date table and not the missing table |
| DriverPage.PageDriverManager.ShowTables | deepin-devicemanager/src/Page/PageDriverManager.cpp:618-648 | the missing table shows iff its list is non-empty, and likewise the outdated table; the up-to-date table shows iff neither does, so some table always shows; the header counts missing plus outdated drivers |
| DriverPage.PageDriverManager.AddDriverInfo | deepin-devicemanager/src/Page/PageDriverManager.cpp:80-83 | the driver is appended at the end of the list |
| DriverPage.PageDriverManager.ScanDevices | deepin-devicemanager/src/Page/PageDriverManager.cpp:459-478 | one driver is appended per device found, each presumed up to date |
| DriverPage.PageDriverManager.ClearAllData | deepin-devicemanager/src/Page/PageDriverManager.cpp:651-668 | all four index lists and the driver list are emptied, no driver is current, and the page is back to a first scan |
| DriverPage.PageDriverManager.ScanDriverInfo | deepin-devicemanager/src/Page/PageDriverManager.cpp:95-117 | a rescan starts iff the scanner is idle and no install is in progress; a refused rescan changes nothing; a started one leaves only the found devices, an empty queue and empty lists |
| DriverPage.PageDriverManager.SlotScanFinished | deepin-devicemanager/src/Page/PageDriverManager.cpp:224-254 | a failed scan changes nothing; a successful one takes the scanner's statuses, adds one entry to each list per driver with that list's status, shows the tables, and makes the checked rows the queue; on a first scan the page stays a first scan iff no driver is missing, outdated or up to date |
| DriverPage.PageDriverManager.AddToDriverIndex | deepin-devicemanager/src/Page/PageDriverManager.cpp:670-688 | the queue becomes the enqueued queue, and the install-all button is enabled when the queue was empty |
| DriverPage.PageDriverManager.RemoveFromDriverIndex | deepin-devicemanager/src/Page/PageDriverManager.cpp:690-703 | the first queued occurrence of the index is removed, and the install-all button is disabled once the queue is empty |
| DriverPage.PageDriverManager.SlotItemCheckedClicked | deepin-devicemanager/src/Page/PageDriverManager.cpp:130-147 | checking a row enqueues its index and unchecking it dequeues the index; checking enables the install-all button when the queue was empty, and unchecking disables it once the queue is empty |
| DriverPage.PageDriverManager.InstallNextDriver | deepin-devicemanager/src/Page/PageDriverManager.cpp:444-457 | on a non-empty queue the head driver becomes current and starts downloading; on an empty queue nothing changes |
| DriverPage.PageDriverManager.SlotDriverOperationClicked | deepin-devicemanager/src/Page/PageDriverManager.cpp:119-128 | the index is enqueued, the install-all button is enabled when the queue was empty, and during an install the head of the queue is (re)started |
| DriverPage.PageDriverManager.SlotInstallAllDrivers | deepin-devicemanager/src/Page/PageDriverManager.cpp:208-216 | the head of the queue, if any, becomes current and starts downloading |
| DriverPage.PageDriverManager.SlotDownloadFinished | deepin-devicemanager/src/Page/PageDriverManager.cpp:157-162 | the current driver's status becomes installing, whatever it was; nothing else changes |
| DriverPage.PageDriverManager.CountOutcome | deepin-devicemanager/src/Page/PageDriverManager.cpp:174-180 | the counters gain one success or one failure and still tally every finished install |
| DriverPage.PageDriverManager.SlotInstallProgressFinished | deepin-devicemanager/src/Page/PageDriverManager.cpp:172-206 | the finished driver is marked success or failed and leaves the queue; if drivers remain the next one starts downloading and the tally continues; otherwise the tally of every install since the last report is returned and the counters are reset |
| DriverPage.ScanTwoDrivers | deepin-devicemanager/src/Page/PageDriverManager.cpp:95-117 | a first scan of two devices that finds one driver missing and one outdated queues the missing driver, whose row is created checked (line 393) |
| DriverPage.QueueTwoDrivers | deepin-devicemanager/src/Page/PageDriverManager.cpp:130-147 | checking the outdated row as well queues both positions, in check order |
| DriverPage.InstallTwoDrivers | deepin-devicemanager/src/Page/PageDriverManager.cpp:172-206 | installing both, the first succeeding and the second failing, drains the queue and reports one success and one failure |

## Left out

- Running `hwinfo --usb` through QProcess: the output is a string parameter of `CurHwinfoUsbInfo`, `IsUsbDevicesChanged` and the detector's constructor.
- `slotUsbChanged`: the polling loop with `sleep(1)`, the 10-second clock bound and the `usbChanged` signal involve time and signals. Only the one-shot decision `isUsbDevicesChanged` is modelled.
- `run` and the `MonitorUsb` udev monitor are thread and kernel I/O.
- The widgets are not modelled: construction and layout, table rows, labels' texts, the scan progress UI and error messages (`CommonTools::getErrorString`). What they show is reduced to the `Tables` result and the reported tally.
- The DBus calls `installDriver` and `undoInstallDriver`, and the `sleep(1)` between installs, are foreign calls and time.
- `slotDownloadProgressChanged`, `slotInstallProgressChanged` and `slotScanInfo` only forward progress text to widgets.
- The device probing of `scanDevicesInfo` through `DeviceManager` is left out. Only the number of devices it finds is modelled, through `ScanDevices`. `testScanDevices` is debug code.
- The driver scanner thread (`DriverScanner`) is left out. Its rewrite of the statuses arrives as the `scanned` parameter of `SlotScanFinished`. Quitting it on a network error is not modelled.
- `getCheckedDriverIndex` of the two table views is the `checked` parameter of `SlotScanFinished`. The table views are not part of this model. The rows a scan creates (line 393 checks the row of every missing driver) are therefore not derived from the statuses: the caller passes them in.
- Fields of `DriverInfo` other than its status (name, type, size, packages, versions) are not read by the modelled logic.
- `mp_CurDriverInfo` is a pointer. The model keeps a position, so it does not capture aliasing or the dangling pointer after `clearAllData`. Slots that dereference it require a current driver instead.
- DriverPage.PageDriverManager.CountOutcome: the counters are unbounded, so 32-bit overflow of the `int` statics is not modelled.
- QtText.Trimmed: white space is the fixed character set of `QChar::isSpace` listed in `IsSpace`. No Unicode database is consulted.
