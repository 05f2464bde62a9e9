/**
 * The state machine under the driver-management page of the device manager
 * (deepin-devicemanager/src/Page/PageDriverManager.cpp): the queue of
 * drivers selected for installation, the per-driver status, the tallies of
 * finished installs, and the three lists a scan sorts the drivers into.
 *
 * The widgets are opaque. What the page reads from them ("a view has a
 * disabled item", "the scanner thread is running", which rows are checked)
 * arrives as parameters, and what it tells them (which tables to show, the
 * tally to report) comes back as results.
 */
module DriverPage {
  import opened Wrappers

  /** The values of DriverInfo::m_Status this page reads or writes. */
  datatype Status =
    | NotInstalled  // ST_NOT_INSTALL
    | CanUpdate     // ST_CAN_UPDATE
    | DriverIsNew   // ST_DRIVER_IS_NEW
    | Downloading   // ST_DOWNLOADING
    | Installing    // ST_INSTALL
    | Success       // ST_SUCESS
    | Failed        // ST_FAILED

  /** How the driver scanner thread finished. */
  datatype ScanResult = ScanSuccess | ScanFailed | ScanNetworkError

  /** What the header widget shows once a scan is classified. */
  datatype Header =
    | NoUpdateDriver                              // setNoUpdateDriverUI
    | DetectFinish(pending: nat, hasMissing: bool) // setDetectFinishUI

  /** Which of the three tables (and their labels) are visible. */
  datatype Tables = Tables(missingVisible: bool, outdatedVisible: bool, upToDateVisible: bool, header: Header)

  /** No index appears twice in the queue. */
  predicate NoDuplicates(q: seq<int>) {
    forall i, j :: 0 <= i < j < |q| ==> q[i] != q[j]
  }

  /**
   * The queue after selecting `x`: `x` is appended at the end unless it is
   * already queued, so the queue never holds an index twice.
   */
  function Enqueued(q: seq<int>, x: int): (r: seq<int>)
    ensures x in r
    ensures forall y :: y in r <==> y in q || y == x
    ensures |r| == if x in q then |q| else |q| + 1
    ensures r[..|q|] == q
  {
    if x in q then q else q + [x]
  }

  /** Selecting never puts an index into the queue twice. */
  lemma EnqueuedKeepsDistinct(q: seq<int>, x: int)
    requires NoDuplicates(q)
    ensures NoDuplicates(Enqueued(q, x))
  {
  }

  /**
   * The queue after deselecting `x`: its first occurrence is deleted, the
   * other indices keep their order, and a queue without `x` is unchanged.
   */
  function RemovedFirst(q: seq<int>, x: int): (r: seq<int>)
    ensures x !in q ==> r == q
    ensures x in q ==> |r| == |q| - 1
  {
    if q == [] then []
    else if q[0] == x then q[1..]
    else [q[0]] + RemovedFirst(q[1..], x)
  }

  /** Deselecting takes away exactly one occurrence of `x`, when there is one. */
  lemma {:induction false} RemovedFirstMultiset(q: seq<int>, x: int)
    ensures multiset(RemovedFirst(q, x)) == multiset(q) - multiset{x}
  {
    if q != [] {
      assert q == [q[0]] + q[1..];
      if q[0] != x {
        RemovedFirstMultiset(q[1..], x);
      }
    }
  }

  /**
   * Deleting the first occurrence is cutting the queue around the first
   * position that holds `x`.
   */
  lemma {:induction false} RemovedFirstAt(q: seq<int>, x: int, i: int)
    requires 0 <= i < |q| && q[i] == x && x !in q[..i]
    ensures RemovedFirst(q, x) == q[..i] + q[i + 1..]
    decreases i
  {
    if i > 0 {
      var t := q[1..];
      assert q[0] != x by {
        assert q[0] == q[..i][0];
      }
      assert t[..i - 1] == q[..i][1..];
      RemovedFirstAt(t, x, i - 1);
      assert q[..i] == [q[0]] + t[..i - 1];
      assert t[i..] == q[i + 1..];
    }
  }

  /** On a duplicate-free queue, deselecting removes the index altogether. */
  lemma RemovedFirstKeepsDistinct(q: seq<int>, x: int)
    requires NoDuplicates(q)
    ensures NoDuplicates(RemovedFirst(q, x))
    ensures x !in RemovedFirst(q, x)
  {
    if x in q {
      var i :| 0 <= i < |q| && q[i] == x;
      assert x !in q[..i];
      RemovedFirstAt(q, x, i);
      CutKeepsDistinct(q, i);
    }
  }

  /** Cutting position `i` out of a duplicate-free queue removes its index for good. */
  lemma CutKeepsDistinct(q: seq<int>, i: int)
    requires NoDuplicates(q) && 0 <= i < |q|
    ensures NoDuplicates(q[..i] + q[i + 1..])
    ensures q[i] !in q[..i] + q[i + 1..]
  {
    var r := q[..i] + q[i + 1..];
    assert forall k :: 0 <= k < |r| ==> r[k] == q[if k < i then k else k + 1];
  }

  /** The number of times `x` occurs in `s`. */
  function Occurrences<T(==)>(s: seq<T>, x: T): (n: nat)
    ensures n <= |s|
    decreases |s|
  {
    if s == [] then 0
    else Occurrences(s[..|s| - 1], x) + (if s[|s| - 1] == x then 1 else 0)
  }

  /** Counting one element further along `s`. */
  lemma OccurrencesStep<T>(s: seq<T>, i: int, x: T)
    requires 0 <= i < |s|
    ensures Occurrences(s[..i + 1], x) == Occurrences(s[..i], x) + (if s[i] == x then 1 else 0)
  {
    assert s[..i + 1][..i] == s[..i];
  }

  /** An element occurs zero times exactly when it is absent. */
  lemma {:induction false} OccurrencesZero<T>(s: seq<T>, x: T)
    ensures Occurrences(s, x) == 0 <==> x !in s
    decreases |s|
  {
    if s != [] {
      var init := s[..|s| - 1];
      OccurrencesZero(init, x);
      assert s == init + [s[|s| - 1]];
    }
  }

  /** Every outcome is a success or a failure. */
  lemma {:induction false} OutcomesSplit(outcomes: seq<bool>)
    ensures Occurrences(outcomes, true) + Occurrences(outcomes, false) == |outcomes|
    decreases |outcomes|
  {
    if outcomes != [] {
      var init := outcomes[..|outcomes| - 1];
      OutcomesSplit(init);
      assert Occurrences(outcomes, true) == Occurrences(init, true) + (if outcomes[|outcomes| - 1] then 1 else 0);
      assert Occurrences(outcomes, false) == Occurrences(init, false) + (if outcomes[|outcomes| - 1] then 0 else 1);
    }
  }

  /** Recording one more outcome adds one to exactly one tally. */
  lemma TallyStep(outcomes: seq<bool>, success: bool)
    ensures Occurrences(outcomes + [success], true) == Occurrences(outcomes, true) + (if success then 1 else 0)
    ensures Occurrences(outcomes + [success], false) == Occurrences(outcomes, false) + (if success then 0 else 1)
  {
    assert (outcomes + [success])[..|outcomes|] == outcomes;
  }

  /**
   * A driver is sorted into at most one of the install, update and
   * up-to-date lists.
   */
  lemma {:induction false} ClassifiedAtMostOnce(s: seq<Status>)
    ensures Occurrences(s, NotInstalled) + Occurrences(s, CanUpdate) + Occurrences(s, DriverIsNew) <= |s|
    decreases |s|
  {
    if s != [] {
      ClassifiedAtMostOnce(s[..|s| - 1]);
    }
  }

  /**
   * One more driver examined: its position-list entry is appended exactly
   * when its status is the one the list collects.
   */
  lemma BucketStep(list: seq<int>, v: int, s: seq<Status>, i: int, st: Status)
    requires 0 <= i < |s|
    ensures list + Repeat(v, Occurrences(s[..i + 1], st)) ==
            list + Repeat(v, Occurrences(s[..i], st)) + (if s[i] == st then [v] else [])
  {
    OccurrencesStep(s, i, st);
    if s[i] == st {
      assert Repeat(v, Occurrences(s[..i], st) + 1) == Repeat(v, Occurrences(s[..i], st)) + [v];
    }
  }

  /** `n` copies of `v`. */
  function Repeat(v: int, n: nat): (r: seq<int>)
    ensures |r| == n
    ensures forall k :: 0 <= k < n ==> r[k] == v
  {
    seq(n, _ => v)
  }

  /** The page, reduced to the state its slots update. */
  class PageDriverManager {
    /** m_ListDriverInfo: the status of each DriverInfo, in list order. */
    var drivers: seq<Status>
    /** mp_CurDriverInfo: the position in `drivers` of the driver being installed. */
    var current: Option<nat>
    /** m_ListDriverIndex: the queue of driver positions selected for installation. */
    var driverIndex: seq<int>
    /** m_ListInstallIndex, m_ListUpdateIndex, m_ListNewIndex. */
    var installIndex: seq<int>
    var updateIndex: seq<int>
    var newIndex: seq<int>
    /** The static counters of slotInstallProgressFinished. */
    var successNum: int
    var failedNum: int
    /** Whether the header's install-all button is enabled. */
    var installButtonEnabled: bool
    /** The outcomes of the installs finished since the counters were last reset. */
    ghost var finished: seq<bool>

    /** The counters tally the finished installs. */
    ghost predicate Valid()
      reads this`successNum, this`failedNum, this`finished
    {
      successNum == Occurrences(finished, true) && failedNum == Occurrences(finished, false)
    }

    constructor ()
      ensures Valid()
      ensures drivers == [] && current == None && driverIndex == []
      ensures installIndex == [] && updateIndex == [] && newIndex == []
      ensures successNum == 0 && failedNum == 0 && finished == []
    {
      drivers, current, driverIndex := [], None, [];
      installIndex, updateIndex, newIndex := [], [], [];
      successNum, failedNum := 0, 0;
      installButtonEnabled := false;
      finished := [];
    }

    /** The head of the queue, if any, designates a driver of the list. */
    predicate HeadInRange()
      reads this
    {
      driverIndex != [] ==> 0 <= driverIndex[0] < |drivers|
    }

    /**
     * isFirstScan: no scan has classified any driver yet. Then the
     * up-to-date table is the one shown.
     */
    predicate IsFirstScan()
      reads this
      ensures IsFirstScan() ==> ShowTables().upToDateVisible && !ShowTables().missingVisible
    {
      newIndex == [] && updateIndex == [] && installIndex == []
    }

    /** isInstalling: a view has a disabled item and the queue is not empty. */
    predicate IsInstalling(viewsHaveDisabled: bool)
      reads this
      ensures IsInstalling(viewsHaveDisabled) ==> viewsHaveDisabled
      ensures driverIndex == [] ==> !IsInstalling(viewsHaveDisabled)
    {
      viewsHaveDisabled && |driverIndex| > 0
    }

    /**
     * showTables: the missing table shows iff some driver is not installed,
     * the outdated table iff some driver can be updated, and the up-to-date
     * table exactly when neither shows; so some table is always visible.
     */
    function ShowTables(): (t: Tables)
      reads this
      ensures t.missingVisible <==> installIndex != []
      ensures t.outdatedVisible <==> updateIndex != []
      ensures t.upToDateVisible <==> !t.missingVisible && !t.outdatedVisible
      ensures t.missingVisible || t.outdatedVisible || t.upToDateVisible
      ensures t.header.DetectFinish? <==> !t.upToDateVisible
      ensures t.header.DetectFinish? ==>
                t.header.pending == |installIndex| + |updateIndex| && t.header.hasMissing == t.missingVisible
    {
      var installLength := |installIndex|;
      var updateLength := |updateIndex|;
      Tables(installLength != 0, updateLength != 0, installLength == 0 && updateLength == 0,
             if installLength == 0 && updateLength == 0 then NoUpdateDriver
             else DetectFinish(installLength + updateLength, installLength != 0))
    }

    /** addDriverInfo: appends one driver to the list. */
    method AddDriverInfo(status: Status)
      modifies this`drivers
      ensures drivers == old(drivers) + [status]
    {
      drivers := drivers + [status];
    }

    /**
     * scanDevices: one driver per device the device catalogue reports,
     * each presumed up to date until the scanner says otherwise.
     */
    method ScanDevices(deviceCount: nat)
      modifies this`drivers
      ensures drivers == old(drivers) + seq(deviceCount, _ => DriverIsNew)
    {
      for k := 0 to deviceCount
        invariant drivers == old(drivers) + seq(k, _ => DriverIsNew)
      {
        AddDriverInfo(DriverIsNew);
        assert seq(k + 1, _ => DriverIsNew) == seq(k, _ => DriverIsNew) + [DriverIsNew];
      }
    }

    /** clearAllData: empties the four index lists and the driver list. */
    method ClearAllData()
      modifies this`newIndex, this`driverIndex, this`updateIndex, this`installIndex, this`drivers, this`current
      ensures newIndex == [] && driverIndex == [] && updateIndex == [] && installIndex == []
      ensures drivers == [] && current == None
      ensures IsFirstScan()
    {
      newIndex := [];
      driverIndex := [];
      updateIndex := [];
      installIndex := [];
      // the DriverInfo objects are deleted: mp_CurDriverInfo no longer designates one
      drivers := [];
      current := None;
    }

    /**
     * scanDriverInfo: does nothing while the scanner runs or an install is
     * in progress; otherwise clears everything and lists the devices to scan.
     */
    method ScanDriverInfo(scannerRunning: bool, viewsHaveDisabled: bool, deviceCount: nat) returns (started: bool)
      modifies this`newIndex, this`driverIndex, this`updateIndex, this`installIndex, this`drivers, this`current
      ensures started == !(scannerRunning || old(IsInstalling(viewsHaveDisabled)))
      ensures !started ==> unchanged(this)
      ensures started ==> drivers == seq(deviceCount, _ => DriverIsNew) && current == None
      ensures started ==> driverIndex == [] && IsFirstScan()
    {
      var install := scannerRunning || IsInstalling(viewsHaveDisabled);
      if install {
        return false;
      }
      ClearAllData();
      ScanDevices(deviceCount);
      assert [] + seq(deviceCount, _ => DriverIsNew) == seq(deviceCount, _ => DriverIsNew);
      return true;
    }

    /**
     * slotScanFinished: on success, takes the statuses the scanner wrote,
     * appends one entry to the install, update or up-to-date list for each
     * driver that is not installed, can be updated or is up to date, shows
     * the tables and takes the checked rows as the new queue. The value
     * appended is always the last position of the driver list.
     */
    method SlotScanFinished(sr: ScanResult, scanned: seq<Status>, checked: seq<int>) returns (shown: Option<Tables>)
      requires |scanned| == |drivers|
      modifies this`drivers, this`installIndex, this`updateIndex, this`newIndex, this`driverIndex
      ensures sr != ScanSuccess ==> unchanged(this) && shown == None
      ensures sr == ScanSuccess ==> drivers == scanned && driverIndex == checked
      ensures sr == ScanSuccess ==>
                && installIndex == old(installIndex) + Repeat(|scanned| - 1, Occurrences(scanned, NotInstalled))
                && updateIndex == old(updateIndex) + Repeat(|scanned| - 1, Occurrences(scanned, CanUpdate))
                && newIndex == old(newIndex) + Repeat(|scanned| - 1, Occurrences(scanned, DriverIsNew))
      ensures sr == ScanSuccess ==> shown == Some(ShowTables())
      ensures sr == ScanSuccess && old(IsFirstScan()) ==>
                (IsFirstScan() <==> NotInstalled !in scanned && CanUpdate !in scanned && DriverIsNew !in scanned)
    {
      if sr != ScanSuccess {
        return None;
      }
      drivers := scanned;
      var last := |drivers| - 1;
      for i := 0 to |drivers|
        invariant drivers == scanned
        invariant installIndex == old(installIndex) + Repeat(last, Occurrences(drivers[..i], NotInstalled))
        invariant updateIndex == old(updateIndex) + Repeat(last, Occurrences(drivers[..i], CanUpdate))
        invariant newIndex == old(newIndex) + Repeat(last, Occurrences(drivers[..i], DriverIsNew))
      {
        BucketStep(old(installIndex), last, drivers, i, NotInstalled);
        BucketStep(old(updateIndex), last, drivers, i, CanUpdate);
        BucketStep(old(newIndex), last, drivers, i, DriverIsNew);
        if drivers[i] == NotInstalled {
          installIndex := installIndex + [|drivers| - 1];
        } else if drivers[i] == CanUpdate {
          updateIndex := updateIndex + [|drivers| - 1];
        } else if drivers[i] == DriverIsNew {
          newIndex := newIndex + [|drivers| - 1];
        }
      }
      assert drivers[..|drivers|] == drivers;
      OccurrencesZero(drivers, NotInstalled);
      OccurrencesZero(drivers, CanUpdate);
      OccurrencesZero(drivers, DriverIsNew);
      shown := Some(ShowTables());
      driverIndex := checked;
    }

    /**
     * addToDriverIndex: appends the index unless it is already queued; the
     * install-all button is enabled when the queue was empty.
     */
    method AddToDriverIndex(index: int)
      modifies this`driverIndex, this`installButtonEnabled
      ensures driverIndex == Enqueued(old(driverIndex), index)
      ensures installButtonEnabled == (old(driverIndex) == [] || old(installButtonEnabled))
    {
      if |driverIndex| <= 0 {
        installButtonEnabled := true;
      }

      var add := true;
      var i := 0;
      while i < |driverIndex|
        invariant 0 <= i <= |driverIndex|
        invariant add && index !in driverIndex[..i]
      {
        if index == driverIndex[i] {
          add := false;
          break;
        }
        assert driverIndex[..i + 1] == driverIndex[..i] + [driverIndex[i]];
        i := i + 1;
      }
      assert add ==> driverIndex[..i] == driverIndex;

      if add {
        driverIndex := driverIndex + [index];
      }
    }

    /**
     * removeFromDriverIndex: deletes the first queued occurrence of the
     * index; the install-all button is disabled when the queue ends up empty.
     */
    method RemoveFromDriverIndex(index: int)
      modifies this`driverIndex, this`installButtonEnabled
      ensures driverIndex == RemovedFirst(old(driverIndex), index)
      ensures installButtonEnabled == (driverIndex != [] && old(installButtonEnabled))
    {
      ghost var removed := false;
      var i := 0;
      while i < |driverIndex|
        invariant 0 <= i <= |driverIndex|
        invariant driverIndex == old(driverIndex)
        invariant index !in driverIndex[..i]
      {
        if index == driverIndex[i] {
          RemovedFirstAt(driverIndex, index, i);
          driverIndex := driverIndex[..i] + driverIndex[i + 1..];
          removed := true;
          break;
        }
        assert driverIndex[..i + 1] == driverIndex[..i] + [driverIndex[i]];
        i := i + 1;
      }
      assert !removed ==> index !in old(driverIndex) by {
        if !removed {
          assert driverIndex[..i] == driverIndex;
        }
      }

      if |driverIndex| <= 0 {
        installButtonEnabled := false;
      }
    }

    /** slotItemCheckedClicked: checking a row queues it, unchecking dequeues it. */
    method SlotItemCheckedClicked(index: int, checked: bool)
      modifies this`driverIndex, this`installButtonEnabled
      ensures driverIndex == if checked then Enqueued(old(driverIndex), index) else RemovedFirst(old(driverIndex), index)
      ensures installButtonEnabled ==
                if checked then old(driverIndex) == [] || old(installButtonEnabled)
                else driverIndex != [] && old(installButtonEnabled)
    {
      if !checked {
        RemoveFromDriverIndex(index);
      } else {
        AddToDriverIndex(index);
      }
    }

    /**
     * installNextDriver: on a non-empty queue, the driver at the head
     * becomes current and starts downloading; the queue is not touched.
     */
    method InstallNextDriver()
      requires HeadInRange()
      modifies this`current, this`drivers
      ensures driverIndex == [] ==> drivers == old(drivers) && current == old(current)
      ensures driverIndex != [] ==>
                current == Some(driverIndex[0]) && drivers == old(drivers)[driverIndex[0] := Downloading]
    {
      if |driverIndex| > 0 {
        var head := driverIndex[0];
        current := Some(head);
        drivers := drivers[head := Downloading];
      }
    }

    /** slotDriverOperationClicked: queues the driver and, while installing, (re)starts the head. */
    method SlotDriverOperationClicked(index: int, viewsHaveDisabled: bool)
      requires viewsHaveDisabled ==> 0 <= Enqueued(driverIndex, index)[0] < |drivers|
      modifies this`driverIndex, this`installButtonEnabled, this`current, this`drivers
      ensures driverIndex == Enqueued(old(driverIndex), index)
      ensures installButtonEnabled == (old(driverIndex) == [] || old(installButtonEnabled))
      ensures viewsHaveDisabled ==>
                current == Some(driverIndex[0]) && drivers == old(drivers)[driverIndex[0] := Downloading]
      ensures !viewsHaveDisabled ==> drivers == old(drivers) && current == old(current)
    {
      AddToDriverIndex(index);
      var install := IsInstalling(viewsHaveDisabled);
      if install {
        InstallNextDriver();
      }
    }

    /** slotInstallAllDrivers: starts installing the head of the queue. */
    method SlotInstallAllDrivers()
      requires HeadInRange()
      modifies this`current, this`drivers
      ensures driverIndex == [] ==> drivers == old(drivers) && current == old(current)
      ensures driverIndex != [] ==>
                current == Some(driverIndex[0]) && drivers == old(drivers)[driverIndex[0] := Downloading]
    {
      InstallNextDriver();
    }

    /** slotDownloadFinished: the current driver moves on to installing. */
    method SlotDownloadFinished()
      requires current.Some? && current.value < |drivers|
      requires driverIndex != []
      modifies this`drivers
      ensures drivers == old(drivers)[current.value := Installing]
    {
      drivers := drivers[current.value := Installing];
    }

    /**
     * The static counters of slotInstallProgressFinished: one more success
     * or one more failure, so that together they still tally every finished
     * install.
     */
    method CountOutcome(success: bool)
      requires Valid()
      modifies this`successNum, this`failedNum, this`finished
      ensures Valid()
      ensures finished == old(finished) + [success]
      ensures successNum == old(successNum) + (if success then 1 else 0)
      ensures failedNum == old(failedNum) + (if success then 0 else 1)
      ensures successNum + failedNum == |finished|
    {
      if success {
        successNum := successNum + 1;
      } else {
        failedNum := failedNum + 1;
      }
      TallyStep(finished, success);
      finished := finished + [success];
      OutcomesSplit(finished);
    }

    /**
     * slotInstallProgressFinished: records the outcome of the current
     * driver, pops the head of the queue and either starts the next driver
     * or, when the queue is drained, reports the tally and resets it.
     */
    method SlotInstallProgressFinished(success: bool) returns (report: Option<(int, int)>)
      requires Valid()
      requires driverIndex != []
      requires current.Some? && current.value < |drivers|
      requires |driverIndex| > 1 ==> 0 <= driverIndex[1] < |drivers|
      modifies this`driverIndex, this`drivers, this`current, this`successNum, this`failedNum, this`finished
      ensures Valid()
      ensures driverIndex == old(driverIndex)[1..]
      ensures var done := old(drivers)[old(current).value := if success then Success else Failed];
              if driverIndex != [] then current == Some(driverIndex[0]) && drivers == done[driverIndex[0] := Downloading]
              else current == old(current) && drivers == done
      ensures driverIndex != [] ==> report == None && finished == old(finished) + [success]
      ensures driverIndex != [] ==>
                && successNum == old(successNum) + (if success then 1 else 0)
                && failedNum == old(failedNum) + (if success then 0 else 1)
      ensures driverIndex == [] ==>
                && report == Some((old(successNum) + (if success then 1 else 0), old(failedNum) + (if success then 0 else 1)))
                && report.value.0 + report.value.1 == |old(finished)| + 1
                && successNum == 0 && failedNum == 0 && finished == []
      ensures successNum + failedNum == |finished|
    {
      CountOutcome(success);

      var index := driverIndex[0];
      driverIndex := driverIndex[1..];

      drivers := drivers[current.value := if success then Success else Failed];
      ghost var done := drivers;

      if |driverIndex| > 0 {
        InstallNextDriver();
        assert drivers == done[driverIndex[0] := Downloading];
        report := None;
      } else {
        report := Some((successNum, failedNum));
        successNum := 0;
        failedNum := 0;
        finished := [];
      }
    }
  }

  /**
   * A first scan that finds one driver missing and one outdated. The row of
   * a missing driver is created checked, so the missing driver is queued.
   */
  method ScanTwoDrivers() returns (page: PageDriverManager)
    ensures fresh(page) && page.Valid()
    ensures page.drivers == [NotInstalled, CanUpdate] && page.driverIndex == [0]
    ensures page.successNum == 0 && page.failedNum == 0 && page.finished == []
  {
    page := new PageDriverManager();
    var started := page.ScanDriverInfo(false, false, 2);
    assert started && page.drivers == [DriverIsNew, DriverIsNew];
    var shown := page.SlotScanFinished(ScanSuccess, [NotInstalled, CanUpdate], [0]);
  }

  /** The outdated row of that scan checked too: the queue holds both positions in check order. */
  method QueueTwoDrivers() returns (page: PageDriverManager)
    ensures fresh(page) && page.Valid()
    ensures page.drivers == [NotInstalled, CanUpdate] && page.driverIndex == [0, 1]
    ensures page.successNum == 0 && page.failedNum == 0 && page.finished == []
  {
    page := ScanTwoDrivers();
    page.SlotItemCheckedClicked(1, true);
  }

  /**
   * Two drivers installed in turn, the first succeeding and the second
   * failing: the queue drains and the tally reported is one success and
   * one failure.
   */
  method InstallTwoDrivers() returns (report: Option<(int, int)>, statuses: seq<Status>)
    ensures report == Some((1, 1))
    ensures statuses == [Success, Failed]
  {
    var page := QueueTwoDrivers();
    page.SlotInstallAllDrivers();
    assert page.current == Some(0) && page.drivers == [Downloading, CanUpdate];
    page.SlotDownloadFinished();
    assert page.drivers == [Installing, CanUpdate];
    report := page.SlotInstallProgressFinished(true);
    assert report == None && page.driverIndex == [1];
    assert page.current == Some(1) && page.drivers == [Success, Downloading];
    assert page.successNum == 1 && page.failedNum == 0;
    page.SlotDownloadFinished();
    assert page.drivers == [Success, Installing];
    report := page.SlotInstallProgressFinished(false);
    statuses := page.drivers;
  }
}
