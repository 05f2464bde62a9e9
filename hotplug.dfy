/**
 * The USB hot-plug detector of the device-manager service
 * (deepin-devicemanager-server/src/HotPlug/DetectThread.cpp): it parses the
 * text printed by `hwinfo --usb` into one key/value map per device, keys the
 * maps by USB bus id, and decides whether a plug or unplug has settled.
 *
 * The `hwinfo` process itself is not run: its standard output is a string
 * parameter.
 */
module HotPlug {
  import opened Wrappers
  import opened QtText

  /** A block with this many lines or fewer is not a device description. */
  const LEAST_NUM: nat := 10

  const HARDWARE_CLASS := "Hardware Class"
  const SYSFS_BUS_ID := "SysFS BusID"
  const CAPACITY := "Capacity"

  /** One device: the `key: value` pairs of its hwinfo block. */
  type DeviceInfo = map<string, string>

  /** All devices, keyed by their `SysFS BusID`. */
  type UsbSnapshot = map<string, DeviceInfo>

  /**
   * Reading a key of a QMap by value: the stored value, or the empty string
   * when the key is absent.
   */
  function Lookup(m: map<string, string>, key: string): string {
    if key in m then m[key] else ""
  }

  /**
   * The entry one line contributes: the line must split on ": " into
   * exactly two words, which give the trimmed key and the trimmed value.
   */
  function LineEntry(line: string): Option<(string, string)> {
    var words := Split(line, ": ");
    if |words| == 2 then Some((Trimmed(words[0]), Trimmed(words[1]))) else None
  }

  /**
   * A line without ": " gives no entry; a line that gives one holds ": "
   * exactly once, and the entry is the trimmed text before and after it.
   */
  lemma LineEntrySplitsOnce(line: string)
    ensures !Contains(line, ": ") ==> LineEntry(line) == None
    ensures LineEntry(line).Some? ==>
              exists i :: && OccursAt(line, ": ", i)
                          && !Contains(line[..i], ": ") && !Contains(line[i + 2..], ": ")
                          && LineEntry(line).value == (Trimmed(line[..i]), Trimmed(line[i + 2..]))
  {
    if !Contains(line, ": ") {
      SplitWithoutSep(line, ": ");
    } else if |Split(line, ": ")| == 2 {
      TwoWords(line, ": ");
    }
  }

  /**
   * A line that splits into exactly two words has one separator: the words
   * are what lies before and after it, and neither holds another.
   */
  lemma TwoWords(line: string, sep: string)
    requires sep != [] && |Split(line, sep)| == 2
    ensures var words := Split(line, sep);
            var i := |words[0]|;
            && OccursAt(line, sep, i)
            && words[0] == line[..i] && words[1] == line[i + |sep|..]
            && !Contains(words[0], sep) && !Contains(words[1], sep)
  {
    var words := Split(line, sep);
    var i := |words[0]|;
    SplitFirstCut(line, sep);
    JoinSplit(line, sep);
    JoinSplit(line[i + |sep|..], sep);
    SplitPartsAreFree(line, sep);
    assert words[1..] == [words[1]];
    assert Join(words, sep) == words[0] + sep + words[1];
    assert line[..i] == words[0];
  }

  /**
   * QMap::insert applied to each present entry in turn: a later entry
   * replaces an earlier one with the same key.
   */
  function InsertAll<V>(entries: seq<Option<(string, V)>>): map<string, V>
    decreases |entries|
  {
    if entries == [] then map[]
    else
      var m := InsertAll(entries[..|entries| - 1]);
      var e := entries[|entries| - 1];
      if e.Some? then m[e.value.0 := e.value.1] else m
  }

  /** Inserting one more entry: the step of the loops that fill a QMap. */
  lemma InsertAllStep<V>(entries: seq<Option<(string, V)>>, i: int)
    requires 0 <= i < |entries|
    ensures InsertAll(entries[..i + 1]) ==
              if entries[i].Some? then InsertAll(entries[..i])[entries[i].value.0 := entries[i].value.1]
              else InsertAll(entries[..i])
  {
    assert entries[..i + 1][..i] == entries[..i];
  }

  /** Entry `i` is present and has key `k`. */
  predicate KeyAt<V>(entries: seq<Option<(string, V)>>, i: int, k: string) {
    0 <= i < |entries| && entries[i].Some? && entries[i].value.0 == k
  }

  /** Entry `i` is the last present entry with key `k`. */
  predicate LastKeyAt<V>(entries: seq<Option<(string, V)>>, i: int, k: string) {
    KeyAt(entries, i, k) && forall j :: i < j < |entries| ==> !KeyAt(entries, j, k)
  }

  /**
   * A key is in the map iff some entry has it, and its value is that of the
   * last entry with that key.
   */
  lemma {:induction false} InsertAllLastWins<V>(entries: seq<Option<(string, V)>>, k: string)
    ensures k in InsertAll(entries) <==> exists i :: KeyAt(entries, i, k)
    ensures k in InsertAll(entries) ==>
              exists i :: LastKeyAt(entries, i, k) && InsertAll(entries)[k] == entries[i].value.1
    decreases |entries|
  {
    if entries != [] {
      var n := |entries| - 1;
      var init := entries[..n];
      InsertAllLastWins(init, k);
      forall i | 0 <= i < n ensures KeyAt(entries, i, k) == KeyAt(init, i, k) {
        assert entries[i] == init[i];
      }
      if KeyAt(entries, n, k) {
        assert LastKeyAt(entries, n, k);
      } else if k in InsertAll(entries) {
        var i :| LastKeyAt(init, i, k) && InsertAll(init)[k] == init[i].value.1;
        assert LastKeyAt(entries, i, k);
      }
    }
  }

  /** The entry of a line, in terms of the words it splits into. */
  lemma LineEntryOfWords(line: string, words: seq<string>)
    requires words == Split(line, ": ")
    ensures LineEntry(line) == if |words| == 2 then Some((Trimmed(words[0]), Trimmed(words[1]))) else None
  {
  }

  /** The entries of a block's lines, one per line. */
  function LineEntries(lines: seq<string>): (es: seq<Option<(string, string)>>)
    ensures |es| == |lines|
    ensures forall i :: 0 <= i < |lines| ==> es[i] == LineEntry(lines[i])
  {
    seq(|lines|, i requires 0 <= i < |lines| => LineEntry(lines[i]))
  }

  /**
   * The map the line loop of getMapInfo builds: every `key: value` line is
   * inserted in order, a later line overwriting an earlier one with the
   * same key.
   */
  function ParseLines(lines: seq<string>): DeviceInfo {
    InsertAll(LineEntries(lines))
  }

  /**
   * A key is in the parsed map iff some line defines it, and its value is
   * the one given by the last line that defines it.
   */
  lemma ParseLinesLastWins(lines: seq<string>, k: string)
    ensures k in ParseLines(lines) <==> exists i :: KeyAt(LineEntries(lines), i, k)
    ensures k in ParseLines(lines) ==>
              exists i :: LastKeyAt(LineEntries(lines), i, k) && ParseLines(lines)[k] == LineEntry(lines[i]).value.1
  {
    InsertAllLastWins(LineEntries(lines), k);
  }

  /**
   * The map getMapInfo leaves behind once it gets past the line count:
   * the parsed lines, plus an empty "Hardware Class" entry when no line
   * gave one, because the hub test reads that key through QMap's
   * inserting `operator[]`.
   */
  function FilledMap(lines: seq<string>): (m: DeviceInfo)
    ensures HARDWARE_CLASS in m
    ensures m[HARDWARE_CLASS] == Lookup(ParseLines(lines), HARDWARE_CLASS)
    ensures forall k :: k != HARDWARE_CLASS ==> (k in m <==> k in ParseLines(lines))
    ensures forall k :: k in ParseLines(lines) ==> k in m && m[k] == ParseLines(lines)[k]
  {
    var m := ParseLines(lines);
    if HARDWARE_CLASS in m then m else m[HARDWARE_CLASS := ""]
  }

  /**
   * What getMapInfo accepts from one block of hwinfo output: `None` when
   * the block is rejected, otherwise the device's map.
   */
  function BlockInfo(item: string): (r: Option<DeviceInfo>)
    ensures r.Some? ==> r.value == FilledMap(Split(item, "\n"))
    ensures r.Some? <==>
              && |Split(item, "\n")| > LEAST_NUM
              && Lookup(ParseLines(Split(item, "\n")), HARDWARE_CLASS) != "hub"
              && SYSFS_BUS_ID in ParseLines(Split(item, "\n"))
    ensures r.Some? ==> SYSFS_BUS_ID in r.value && HARDWARE_CLASS in r.value && r.value[HARDWARE_CLASS] != "hub"
  {
    var lines := Split(item, "\n");
    if |lines| <= LEAST_NUM then None
    else
      var m := FilledMap(lines);
      if m[HARDWARE_CLASS] == "hub" then None
      else if SYSFS_BUS_ID !in m then None
      else Some(m)
  }

  /**
   * The line loop of getMapInfo: every line that splits on ": " into
   * exactly two words inserts its trimmed key and value.
   */
  method InsertLines(lines: seq<string>) returns (mapInfo: DeviceInfo)
    ensures mapInfo == ParseLines(lines)
  {
    mapInfo := map[];
    ghost var entries := LineEntries(lines);
    for i := 0 to |lines|
      invariant mapInfo == InsertAll(entries[..i])
    {
      InsertAllStep(entries, i);
      var words := Split(lines[i], ": ");
      LineEntryOfWords(lines[i], words);
      if |words| != 2 {
        continue;
      }
      mapInfo := mapInfo[Trimmed(words[0]) := Trimmed(words[1])];
    }
    assert entries[..|lines|] == entries;
  }

  /**
   * getMapInfo: splits a block into lines, rejects it when it has at most
   * LEAST_NUM lines, fills the map from its `key: value` lines, and accepts
   * it unless it is a hub or lacks a bus id.
   */
  method GetMapInfo(item: string) returns (ok: bool, mapInfo: DeviceInfo)
    ensures ok <==> BlockInfo(item).Some?
    ensures ok ==> mapInfo == BlockInfo(item).value
    ensures |Split(item, "\n")| <= LEAST_NUM ==> !ok && mapInfo == map[]
    ensures |Split(item, "\n")| > LEAST_NUM ==> mapInfo == FilledMap(Split(item, "\n"))
  {
    mapInfo := map[];
    var lines := Split(item, "\n");
    if |lines| <= LEAST_NUM {
      return false, mapInfo;
    }

    mapInfo := InsertLines(lines);

    // reading "Hardware Class" through operator[] inserts it when absent
    if HARDWARE_CLASS !in mapInfo {
      mapInfo := mapInfo[HARDWARE_CLASS := ""];
    }
    assert mapInfo == FilledMap(lines);
    BlockInfoOfFilled(item, lines);
    if mapInfo[HARDWARE_CLASS] == "hub" {
      return false, mapInfo;
    }
    if SYSFS_BUS_ID !in mapInfo {
      return false, mapInfo;
    }
    return true, mapInfo;
  }

  /** Past the line count, a block is accepted iff its filled map is no hub and has a bus id. */
  lemma BlockInfoOfFilled(item: string, lines: seq<string>)
    requires lines == Split(item, "\n") && |lines| > LEAST_NUM
    ensures BlockInfo(item) ==
              var m := FilledMap(lines);
              if m[HARDWARE_CLASS] == "hub" || SYSFS_BUS_ID !in m then None else Some(m)
  {
  }

  /** The entry an accepted block contributes: its bus id and its map. */
  function BlockEntry(item: string): (e: Option<(string, DeviceInfo)>)
    ensures e.Some? <==> BlockInfo(item).Some?
    ensures e.Some? ==> e.value.1 == BlockInfo(item).value && e.value.0 == e.value.1[SYSFS_BUS_ID]
  {
    match BlockInfo(item)
    case None => None
    case Some(info) => Some((info[SYSFS_BUS_ID], info))
  }

  /** The entries of the blocks, one per block. */
  function BlockEntries(blocks: seq<string>): (es: seq<Option<(string, DeviceInfo)>>)
    ensures |es| == |blocks|
    ensures forall i :: 0 <= i < |blocks| ==> es[i] == BlockEntry(blocks[i])
  {
    seq(|blocks|, i requires 0 <= i < |blocks| => BlockEntry(blocks[i]))
  }

  /**
   * The snapshot the block loop of curHwinfoUsbInfo builds: every accepted
   * block is inserted under its own bus id, a later block replacing an
   * earlier one with the same id.
   */
  function Snapshot(blocks: seq<string>): UsbSnapshot {
    InsertAll(BlockEntries(blocks))
  }

  /**
   * Every device of a snapshot is stored under its own bus id and has a
   * "Hardware Class" entry.
   */
  ghost predicate KeyedByBusId(snap: UsbSnapshot) {
    forall b :: b in snap ==>
      SYSFS_BUS_ID in snap[b] && snap[b][SYSFS_BUS_ID] == b && HARDWARE_CLASS in snap[b]
  }

  /**
   * A bus id is in the snapshot iff some block is accepted with it; the
   * device stored there is the last such block's map, so it records that
   * same bus id.
   */
  lemma SnapshotLastWins(blocks: seq<string>, b: string)
    ensures b in Snapshot(blocks) <==> exists i :: KeyAt(BlockEntries(blocks), i, b)
    ensures b in Snapshot(blocks) ==>
              exists i :: LastKeyAt(BlockEntries(blocks), i, b) && Snapshot(blocks)[b] == BlockInfo(blocks[i]).value
    ensures b in Snapshot(blocks) ==> Snapshot(blocks)[b][SYSFS_BUS_ID] == b
  {
    InsertAllLastWins(BlockEntries(blocks), b);
  }

  /** Every snapshot is keyed by bus id. */
  lemma SnapshotKeyed(blocks: seq<string>)
    ensures KeyedByBusId(Snapshot(blocks))
  {
    forall b | b in Snapshot(blocks)
      ensures SYSFS_BUS_ID in Snapshot(blocks)[b] && Snapshot(blocks)[b][SYSFS_BUS_ID] == b
      ensures HARDWARE_CLASS in Snapshot(blocks)[b]
    {
      SnapshotLastWins(blocks, b);
    }
  }

  /**
   * curHwinfoUsbInfo, given the output of `hwinfo --usb`: splits it into
   * blocks on blank lines and keys each accepted block by its bus id.
   */
  method CurHwinfoUsbInfo(output: string) returns (usbInfo: UsbSnapshot)
    ensures usbInfo == Snapshot(Split(output, "\n\n"))
    ensures KeyedByBusId(usbInfo)
  {
    usbInfo := map[];
    var items := Split(output, "\n\n");
    ghost var entries := BlockEntries(items);
    for i := 0 to |items|
      invariant usbInfo == InsertAll(entries[..i])
    {
      InsertAllStep(entries, i);
      var ok, mapItem := GetMapInfo(items[i]);
      if !ok {
        continue;
      }
      usbInfo := usbInfo[mapItem[SYSFS_BUS_ID] := mapItem];
    }
    assert entries[..|items|] == entries;
    SnapshotKeyed(items);
  }

  /**
   * A mass-storage device whose capacity the kernel has not reported yet:
   * its arrival does not count as settled.
   */
  predicate PendingDisk(device: DeviceInfo)
    ensures PendingDisk(device) ==> HARDWARE_CLASS in device && CAPACITY !in device
  {
    Lookup(device, HARDWARE_CLASS) == "disk" && CAPACITY !in device
  }

  /** `key` is a device of `cur` that the stored snapshot does not know yet. */
  predicate NewSettledDevice(stored: UsbSnapshot, cur: UsbSnapshot, key: string)
    ensures NewSettledDevice(stored, cur, key) ==> cur.Keys != stored.Keys
  {
    key in cur && key !in stored && !PendingDisk(cur[key])
  }

  /**
   * The decision of isUsbDevicesChanged: a device was unplugged (fewer
   * devices than stored), or a device that is not a pending disk appeared.
   */
  predicate Settled(stored: UsbSnapshot, cur: UsbSnapshot)
    ensures cur.Keys <= stored.Keys ==> (Settled(stored, cur) <==> |cur| < |stored|)
    ensures |cur| == |stored| && Settled(stored, cur) ==> cur.Keys != stored.Keys
  {
    |cur| < |stored| || exists key :: key in cur && NewSettledDevice(stored, cur, key)
  }

  /** A snapshot compared with itself never counts as a change. */
  lemma SettledIrreflexive(snap: UsbSnapshot)
    ensures !Settled(snap, snap)
  {
  }

  /**
   * When no change is detected and no disk is pending, the current devices
   * are exactly the stored ones (as a set of bus ids).
   */
  lemma UnsettledKeepsDevices(stored: UsbSnapshot, cur: UsbSnapshot)
    requires !Settled(stored, cur)
    requires forall key :: key in cur ==> !PendingDisk(cur[key])
    ensures cur.Keys == stored.Keys
  {
    assert cur.Keys <= stored.Keys by {
      forall key | key in cur ensures key in stored {
        assert !NewSettledDevice(stored, cur, key);
      }
    }
    var extra := stored.Keys - cur.Keys;
    assert stored.Keys == cur.Keys + extra;
    assert |stored.Keys| == |cur.Keys| + |extra|;
  }

  /** The hot-plug detector, holding the last settled snapshot. */
  class DetectThread {
    /** m_MapUsbInfo */
    var mapUsbInfo: UsbSnapshot

    /** Takes the first snapshot from the given hwinfo output. */
    constructor (output: string)
      ensures mapUsbInfo == Snapshot(Split(output, "\n\n"))
    {
      var usbInfo := CurHwinfoUsbInfo(output);
      mapUsbInfo := usbInfo;
    }

    /** updateMemUsbInfo: the stored snapshot becomes exactly `usbInfo`. */
    method UpdateMemUsbInfo(usbInfo: UsbSnapshot)
      modifies this
      ensures mapUsbInfo == usbInfo
    {
      mapUsbInfo := map[];
      mapUsbInfo := usbInfo;
    }

    /**
     * isUsbDevicesChanged, given a fresh hwinfo output: reports whether the
     * plug or unplug has settled and, if so, stores the fresh snapshot.
     */
    method IsUsbDevicesChanged(output: string) returns (changed: bool)
      modifies this
      ensures changed == Settled(old(mapUsbInfo), Snapshot(Split(output, "\n\n")))
      ensures mapUsbInfo == if changed then Snapshot(Split(output, "\n\n")) else old(mapUsbInfo)
      ensures KeyedByBusId(old(mapUsbInfo)) ==> KeyedByBusId(mapUsbInfo)
    {
      var curUsbInfo := CurHwinfoUsbInfo(output);

      // an unplug: fewer devices than stored
      if |curUsbInfo| < |mapUsbInfo| {
        UpdateMemUsbInfo(curUsbInfo);
        return true;
      }

      // a plug: look for a device not stored yet
      var keys := curUsbInfo.Keys;
      while keys != {}
        invariant keys <= curUsbInfo.Keys
        invariant mapUsbInfo == old(mapUsbInfo)
        invariant forall key :: key in curUsbInfo.Keys - keys ==> !NewSettledDevice(mapUsbInfo, curUsbInfo, key)
        decreases keys
      {
        var key :| key in keys;
        keys := keys - {key};
        if key in mapUsbInfo {
          continue;
        }
        if Lookup(curUsbInfo[key], HARDWARE_CLASS) == "disk" && CAPACITY !in curUsbInfo[key] {
          continue;
        }
        assert NewSettledDevice(mapUsbInfo, curUsbInfo, key);
        UpdateMemUsbInfo(curUsbInfo);
        return true;
      }
      return false;
    }
  }
}
