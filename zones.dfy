/**
 * The zone partitioner of core.c: `calculate_zones` turns the ordered list of
 * physical monitors into the ordered list of logical zones. A monitor wider
 * than the ultrawide threshold becomes a left, a center and a right zone; any
 * other monitor becomes one zone covering all of it.
 */
module Zones {
  import opened WmTypes

  /** Integer pixel geometry of a zone. */
  datatype Rectangle = Rectangle(x: int, y: int, width: int, height: int)

  /** A zone: its geometry, the index of its monitor, and 0..2 for left/center/right. */
  datatype LogicalZone = LogicalZone(geometry: Rectangle, monitorId: int, zoneId: int)

  /** `a / b` as C computes it: the quotient is truncated toward zero. */
  function TruncDiv(a: int, b: int): int
    requires b > 0
  {
    if a >= 0 then a / b else -((-a) / b)
  }

  // The split ratios 0.25, 0.5 and 0.25 are exact in binary, so
  // `(int)(width * ratio)` is the truncated quotient below.

  function LeftWidth(width: int): int { TruncDiv(width, 4) }

  function CenterWidth(width: int): int { TruncDiv(width, 2) }

  function RightWidth(width: int): int { TruncDiv(width, 4) }

  /** The comparison is strict: a monitor exactly as wide as the threshold stays whole. */
  predicate IsUltrawide(m: ScreenInfo, threshold: int) {
    m.width > threshold
  }

  function ZonesPerMonitor(m: ScreenInfo, threshold: int): nat {
    if IsUltrawide(m, threshold) then 3 else 1
  }

  /** The zones monitor `m`, the `i`-th of the list, contributes, left to right. */
  function MonitorZones(m: ScreenInfo, i: int, threshold: int): (zs: seq<LogicalZone>)
    ensures |zs| == ZonesPerMonitor(m, threshold)
    ensures forall k :: 0 <= k < |zs| ==>
      && zs[k].monitorId == i && zs[k].zoneId == k
      && zs[k].geometry.y == m.yOrg && zs[k].geometry.height == m.height
    ensures zs[0].geometry.x == m.xOrg
    ensures forall k :: 0 < k < |zs| ==>
      zs[k].geometry.x == zs[k - 1].geometry.x + zs[k - 1].geometry.width
    ensures !IsUltrawide(m, threshold) ==>
      zs[0].geometry == Rectangle(m.xOrg, m.yOrg, m.width, m.height)
    ensures IsUltrawide(m, threshold) ==>
      && zs[0].geometry.width == LeftWidth(m.width)
      && zs[1].geometry.width == CenterWidth(m.width)
      && zs[2].geometry.width == RightWidth(m.width)
  {
    if IsUltrawide(m, threshold) then
      var left := LeftWidth(m.width);
      var center := CenterWidth(m.width);
      var right := RightWidth(m.width);
      [ LogicalZone(Rectangle(m.xOrg, m.yOrg, left, m.height), i, 0),
        LogicalZone(Rectangle(m.xOrg + left, m.yOrg, center, m.height), i, 1),
        LogicalZone(Rectangle(m.xOrg + left + center, m.yOrg, right, m.height), i, 2) ]
    else
      [ LogicalZone(Rectangle(m.xOrg, m.yOrg, m.width, m.height), i, 0) ]
  }

  /** The number of zones the first pass of `calculate_zones` counts. */
  function ZoneCount(ms: seq<ScreenInfo>, threshold: int): nat {
    if ms == [] then 0
    else ZoneCount(ms[..|ms| - 1], threshold) + ZonesPerMonitor(ms[|ms| - 1], threshold)
  }

  /** The zone list: each monitor's zones, in monitor order. */
  function Partition(ms: seq<ScreenInfo>, threshold: int): seq<LogicalZone> {
    if ms == [] then []
    else Partition(ms[..|ms| - 1], threshold) + MonitorZones(ms[|ms| - 1], |ms| - 1, threshold)
  }

  /** The count `calculate_zones` returns is the length of the list it fills. */
  lemma {:induction false} PartitionLength(ms: seq<ScreenInfo>, threshold: int)
    ensures |Partition(ms, threshold)| == ZoneCount(ms, threshold)
  {
    if ms != [] {
      PartitionLength(ms[..|ms| - 1], threshold);
    }
  }

  /** The zones of the first `i` monitors are a prefix of the zones of all of them. */
  lemma {:induction false} PartitionPrefix(ms: seq<ScreenInfo>, threshold: int, i: int)
    requires 0 <= i <= |ms|
    ensures Partition(ms[..i], threshold) <= Partition(ms, threshold)
    ensures ZoneCount(ms[..i], threshold) <= ZoneCount(ms, threshold)
    decreases |ms|
  {
    if i == |ms| {
      assert ms[..i] == ms;
    } else {
      var init := ms[..|ms| - 1];
      assert init[..i] == ms[..i];
      PartitionPrefix(init, threshold, i);
    }
  }

  /**
   * Monitor `i`'s zones form one contiguous block of the list, starting after
   * the zones of the monitors before it.
   */
  lemma MonitorBlock(ms: seq<ScreenInfo>, threshold: int, i: int)
    requires 0 <= i < |ms|
    ensures
      var start := ZoneCount(ms[..i], threshold);
      var end := start + ZonesPerMonitor(ms[i], threshold);
      && end <= |Partition(ms, threshold)|
      && Partition(ms, threshold)[start..end] == MonitorZones(ms[i], i, threshold)
  {
    var upto := ms[..i + 1];
    assert upto[..i] == ms[..i];
    assert upto[|upto| - 1] == ms[i];
    PartitionLength(ms[..i], threshold);
    PartitionLength(upto, threshold);
    PartitionLength(ms, threshold);
    PartitionPrefix(ms, threshold, i + 1);
  }

  /** Every zone names a monitor of the input and one of that monitor's zones. */
  ghost predicate ZonesNameMonitors(ms: seq<ScreenInfo>, threshold: int, zs: seq<LogicalZone>) {
    forall k :: 0 <= k < |zs| ==>
      && 0 <= zs[k].monitorId < |ms|
      && 0 <= zs[k].zoneId < ZonesPerMonitor(ms[zs[k].monitorId], threshold)
  }

  /** (monitorId, zoneId) strictly increases along the list. */
  ghost predicate ZonesOrdered(zs: seq<LogicalZone>) {
    forall j, k :: 0 <= j < k < |zs| ==>
      || zs[j].monitorId < zs[k].monitorId
      || (zs[j].monitorId == zs[k].monitorId && zs[j].zoneId < zs[k].zoneId)
  }

  /**
   * Zones appear in monitor order, and a monitor's own zones in left, center,
   * right order; every zone belongs to a monitor of the input.
   */
  lemma {:induction false} PartitionOrder(ms: seq<ScreenInfo>, threshold: int)
    ensures ZonesNameMonitors(ms, threshold, Partition(ms, threshold))
    ensures ZonesOrdered(Partition(ms, threshold))
  {
    if ms != [] {
      var init := ms[..|ms| - 1];
      PartitionOrder(init, threshold);
      var p := Partition(init, threshold);
      var last := MonitorZones(ms[|ms| - 1], |ms| - 1, threshold);
      var zs := Partition(ms, threshold);
      assert zs == p + last;
      forall k | 0 <= k < |zs|
        ensures 0 <= zs[k].monitorId < |ms|
        ensures 0 <= zs[k].zoneId < ZonesPerMonitor(ms[zs[k].monitorId], threshold)
      {
        if k < |p| {
          assert zs[k] == p[k];
          assert 0 <= p[k].monitorId < |init|;
          assert ms[p[k].monitorId] == init[p[k].monitorId];
        } else {
          assert zs[k] == last[k - |p|];
        }
      }
      forall j, k | 0 <= j < k < |zs|
        ensures || zs[j].monitorId < zs[k].monitorId
                || (zs[j].monitorId == zs[k].monitorId && zs[j].zoneId < zs[k].zoneId)
      {
        if k < |p| {
          assert zs[j] == p[j] && zs[k] == p[k];
        } else if j < |p| {
          assert zs[j] == p[j] && zs[k] == last[k - |p|];
          assert p[j].monitorId < |init|;
        } else {
          assert zs[j] == last[j - |p|] && zs[k] == last[k - |p|];
        }
      }
    }
  }

  /**
   * The right zone is computed from the ratio, not as a remainder: for a
   * non-negative width the three zones end up to two pixels short of the
   * monitor's right edge, and exactly at it when the width is a multiple of 4.
   */
  lemma SplitResidual(m: ScreenInfo, i: int, threshold: int)
    requires IsUltrawide(m, threshold) && m.width >= 0
    ensures var zs := MonitorZones(m, i, threshold);
      var end := zs[2].geometry.x + zs[2].geometry.width;
      && m.xOrg + m.width - 2 <= end <= m.xOrg + m.width
      && (m.width % 4 == 0 <==> end == m.xOrg + m.width)
  {
  }

  /**
   * `calculate_zones`: a first pass counts the zones, a second fills a freshly
   * allocated array with a running zone index.
   */
  method CalculateZones(monitors: seq<ScreenInfo>, threshold: int)
    returns (zones: array<LogicalZone>, zoneCount: int)
    ensures fresh(zones)
    ensures zoneCount == zones.Length == ZoneCount(monitors, threshold)
    ensures zones[..] == Partition(monitors, threshold)
  {
    zoneCount := 0;
    for i := 0 to |monitors|
      invariant zoneCount == ZoneCount(monitors[..i], threshold)
    {
      assert monitors[..i + 1][..i] == monitors[..i];
      if monitors[i].width > threshold {
        zoneCount := zoneCount + 3;
      } else {
        zoneCount := zoneCount + 1;
      }
    }
    assert monitors[..|monitors|] == monitors;

    zones := new LogicalZone[zoneCount];
    var zoneIndex := 0;
    for i := 0 to |monitors|
      invariant zoneIndex == ZoneCount(monitors[..i], threshold)
      invariant zoneIndex <= zones.Length
      invariant zones[..zoneIndex] == Partition(monitors[..i], threshold)
    {
      assert monitors[..i + 1][..i] == monitors[..i];
      PartitionPrefix(monitors, threshold, i + 1);
      zoneIndex := FillMonitor(zones, zoneIndex, monitors[i], i, threshold);
    }
    assert monitors[..|monitors|] == monitors;
  }

  /**
   * The body of the filling loop of `calculate_zones`: write monitor `m`'s
   * zones, the `i`-th monitor's, at `zoneIndex` and advance the running index.
   */
  method FillMonitor(zones: array<LogicalZone>, zoneIndex: int, m: ScreenInfo, i: int, threshold: int)
    returns (next: int)
    requires 0 <= zoneIndex && zoneIndex + ZonesPerMonitor(m, threshold) <= zones.Length
    modifies zones
    ensures next == zoneIndex + ZonesPerMonitor(m, threshold)
    ensures zones[..next] == old(zones[..zoneIndex]) + MonitorZones(m, i, threshold)
  {
    next := zoneIndex;
    if m.width > threshold {
      var leftWidth := LeftWidth(m.width);
      var centerWidth := CenterWidth(m.width);
      var rightWidth := RightWidth(m.width);
      zones[next] := LogicalZone(Rectangle(m.xOrg, m.yOrg, leftWidth, m.height), i, 0);
      next := next + 1;
      zones[next] := LogicalZone(Rectangle(m.xOrg + leftWidth, m.yOrg, centerWidth, m.height), i, 1);
      next := next + 1;
      zones[next] := LogicalZone(Rectangle(m.xOrg + leftWidth + centerWidth, m.yOrg, rightWidth, m.height), i, 2);
      next := next + 1;
    } else {
      zones[next] := LogicalZone(Rectangle(m.xOrg, m.yOrg, m.width, m.height), i, 0);
      next := next + 1;
    }
  }

  /** Two 1920-pixel monitors side by side give two whole zones. */
  lemma RegularMonitorsExample(threshold: int)
    requires 1920 <= threshold
    ensures Partition([ScreenInfo(0, 0, 0, 1920, 1080), ScreenInfo(1, 1920, 0, 1920, 1080)], threshold)
      == [ LogicalZone(Rectangle(0, 0, 1920, 1080), 0, 0),
           LogicalZone(Rectangle(1920, 0, 1920, 1080), 1, 0) ]
  {
    var ms := [ScreenInfo(0, 0, 0, 1920, 1080), ScreenInfo(1, 1920, 0, 1920, 1080)];
    assert ms[..1] == [ms[0]];
    assert [ms[0]][..0] == [];
    assert Partition([ms[0]], threshold) == MonitorZones(ms[0], 0, threshold);
  }

  /** A 5120-pixel monitor splits into widths 1280, 2560, 1280 at x 0, 1280, 3840. */
  lemma UltrawideMonitorExample(threshold: int)
    requires threshold < 5120
    ensures Partition([ScreenInfo(0, 0, 0, 5120, 1440)], threshold)
      == [ LogicalZone(Rectangle(0, 0, 1280, 1440), 0, 0),
           LogicalZone(Rectangle(1280, 0, 2560, 1440), 0, 1),
           LogicalZone(Rectangle(3840, 0, 1280, 1440), 0, 2) ]
  {
    var ms := [ScreenInfo(0, 0, 0, 5120, 1440)];
    assert ms[..0] == [];
  }

  /** Widths 1920, 5120, 1920 give monitor ids 0,1,1,1,2 and zone ids 0,0,1,2,0. */
  lemma MixedMonitorsExample(threshold: int)
    requires 1920 <= threshold < 5120
    ensures var zs := Partition([ ScreenInfo(0, 0, 0, 1920, 1080),
                                  ScreenInfo(1, 1920, 0, 5120, 1440),
                                  ScreenInfo(2, 7040, 0, 1920, 1080) ], threshold);
      && |zs| == 5
      && [zs[0].monitorId, zs[1].monitorId, zs[2].monitorId, zs[3].monitorId, zs[4].monitorId] == [0, 1, 1, 1, 2]
      && [zs[0].zoneId, zs[1].zoneId, zs[2].zoneId, zs[3].zoneId, zs[4].zoneId] == [0, 0, 1, 2, 0]
  {
    var ms := [ ScreenInfo(0, 0, 0, 1920, 1080),
                ScreenInfo(1, 1920, 0, 5120, 1440),
                ScreenInfo(2, 7040, 0, 1920, 1080) ];
    assert ms[..2] == [ms[0], ms[1]];
    assert [ms[0], ms[1]][..1] == [ms[0]];
    assert [ms[0]][..0] == [];
    var z0 := MonitorZones(ms[0], 0, threshold);
    var z1 := MonitorZones(ms[1], 1, threshold);
    var z2 := MonitorZones(ms[2], 2, threshold);
    assert Partition([ms[0]], threshold) == z0;
    assert Partition([ms[0], ms[1]], threshold) == z0 + z1;
    assert Partition(ms, threshold) == z0 + z1 + z2;
  }
}
