// run_partition_decide: where the ESP and the root partition go in the largest
// free region. Byte positions; the end of a range is inclusive, as parted has it.
module FreeSpacePlan {
  import opened Wrappers
  import opened TableDiff

  const MIB: int := 1024 * 1024
  const GIB: int := 1024 * 1024 * 1024
  const ESP_SIZE: int := 2 * GIB
  const MIN_INSTALL: int := 32 * GIB

  datatype Region = Region(start: int, end: int, size: int)

  datatype Plan = Plan(espStart: int, espEnd: int, rootStart: int, rootEnd: int)

  // A row of parted's free-space listing: whole sectors.
  ghost predicate Listed(r: Region, sector: int) {
    && 0 <= r.start <= r.end && r.size == r.end - r.start + 1
    && sector > 0 && r.start % sector == 0 && (r.end + 1) % sector == 0
  }

  // A sector size a MiB is made of.
  predicate SectorSize(sector: int) {
    sector == 512 || sector == 1024 || sector == 2048 || sector == 4096
  }

  function AlignUp(x: int): int {
    (x + MIB - 1) / MIB * MIB
  }

  function AlignDown(x: int): int {
    x / MIB * MIB
  }

  // The region made up for a disk without a partition table; the shell's
  // division truncates towards zero.
  function BlankRegion(diskSize: int): Region {
    var end := if diskSize >= MIB then AlignDown(diskSize - MIB) else -AlignDown(MIB - diskSize);
    Region(MIB, end, end - MIB)
  }

  // The layout in one region, when it is large enough.
  function PlanIn(r: Region): Option<Plan> {
    var espStart := AlignUp(r.start);
    var espEnd := espStart + ESP_SIZE;
    var rootStart := AlignUp(espEnd + 1);
    var rootEnd := AlignDown(r.end);
    if rootEnd <= rootStart || rootEnd - espStart < MIN_INSTALL then None
    else Some(Plan(espStart, espEnd, rootStart, rootEnd))
  }

  // The first of the largest free regions.
  method LargestFree(rows: seq<Region>) returns (best: Option<Region>)
    ensures best.None? <==> forall k :: 0 <= k < |rows| ==> rows[k].size <= 0
    ensures best.Some? ==> exists i :: 0 <= i < |rows| && rows[i] == best.value && rows[i].size > 0
                             && (forall k :: 0 <= k < |rows| ==> rows[k].size <= rows[i].size)
                             && (forall k :: 0 <= k < i ==> rows[k].size < rows[i].size)
  {
    best := None;
    var max := 0;
    ghost var at := 0;
    for k := 0 to |rows|
      invariant best.None? <==> max == 0
      invariant max >= 0 && forall j :: 0 <= j < k ==> rows[j].size <= max
      invariant best.Some? ==> 0 <= at < k && rows[at] == best.value && rows[at].size == max
                               && forall j :: 0 <= j < at ==> rows[j].size < max
    {
      if rows[k].size > max {
        best, max, at := Some(rows[k]), rows[k].size, k;
      }
    }
  }

  method RunPartitionDecide(blank: bool, diskSize: int, rows: seq<Region>)
    returns (region: Option<Region>, plan: Option<Plan>)
    requires blank ==> diskSize > 0
    ensures plan == if region.Some? then PlanIn(region.value) else None
    ensures blank ==> region == Some(BlankRegion(diskSize))
    ensures !blank && region.Some? ==> region.value in rows
    ensures !blank && region.Some? ==> forall k :: 0 <= k < |rows| ==> rows[k].size <= region.value.size
    ensures !blank && region.None? ==> forall k :: 0 <= k < |rows| ==> rows[k].size <= 0
  {
    if blank {
      region := Some(BlankRegion(diskSize));
    } else {
      region := LargestFree(rows);
      if region.None? {
        return None, None;
      }
    }
    plan := PlanIn(region.value);
  }

  // The last byte of the sector that holds byte b: where a range that ends at b
  // really ends on disk, and what parted reports its size to be.
  function SectorEnd(b: int, sector: int): int
    requires sector > 0
  {
    b / sector * sector + sector - 1
  }

  function ReportedSize(start: int, end: int, sector: int): int
    requires sector > 0
  {
    SectorEnd(end, sector) + 1 - start
  }

  ghost predicate Overlap(a: int, b: int, c: int, d: int) {
    a <= d && c <= b
  }

  lemma PlanArithmetic(r: Region, p: Plan)
    requires r.start >= 0 && PlanIn(r) == Some(p)
    ensures p.espStart % MIB == 0 && p.espEnd % MIB == 0 && p.rootStart % MIB == 0 && p.rootEnd % MIB == 0
    ensures r.start <= p.espStart < r.start + MIB
    ensures p.espEnd - p.espStart == ESP_SIZE && p.rootStart == p.espEnd + MIB
    ensures p.rootStart < p.rootEnd <= r.end < p.rootEnd + MIB
    ensures p.rootEnd - p.espStart >= MIN_INSTALL
  {
  }

  lemma AlignedSectors(x: int, sector: int)
    requires SectorSize(sector) && x % MIB == 0
    ensures x % sector == 0 && SectorEnd(x, sector) == x + sector - 1
  {
    var k := x / MIB;
    if sector == 512 {
      assert x == 512 * (2048 * k);
    } else if sector == 1024 {
      assert x == 1024 * (1024 * k);
    } else if sector == 2048 {
      assert x == 2048 * (512 * k);
    } else {
      assert x == 4096 * (256 * k);
    }
  }

  lemma Scaled(k: int, x: int, y: int)
    requires k >= 0 && x <= y
    ensures k * x <= k * y
  {
  }

  lemma NextMultiple(x: int, y: int, d: int, a: int, b: int)
    requires d > 0 && a == d * x && b == d * y && a < b
    ensures a + d <= b
  {
    if x >= y { Scaled(d, y, x); }
    Scaled(d, x + 1, y);
    assert d * (x + 1) == d * x + d;
  }

  lemma NextSector(a: int, b: int, sector: int)
    requires SectorSize(sector) && a < b && a % sector == 0 && b % sector == 0
    ensures a + sector <= b
  {
    assert a == sector * (a / sector) && b == sector * (b / sector);
    NextMultiple(a / sector, b / sector, sector, a, b);
  }

  // An accepted plan is aligned; what it really occupies, whole sectors, stays
  // inside the free region with the two partitions apart; the ESP spans 2 GiB,
  // the installation 32 GiB or more, and under 2 MiB of the region is wasted.
  lemma PlanFits(r: Region, p: Plan, sector: int)
    requires SectorSize(sector) && Listed(r, sector) && PlanIn(r) == Some(p)
    ensures p.espStart % 1048576 == 0 && p.rootStart % 1048576 == 0
    ensures r.start <= p.espStart && SectorEnd(p.espEnd, sector) < p.rootStart && SectorEnd(p.rootEnd, sector) <= r.end
    ensures p.espEnd - p.espStart == 2147483648 && p.rootEnd - p.espStart >= 34359738368
    ensures r.size - (p.rootEnd - p.espStart) < 2097152
  {
    PlanArithmetic(r, p);
    AlignedSectors(p.espEnd, sector);
    AlignedSectors(p.rootEnd, sector);
    NextSector(p.rootEnd, r.end + 1, sector);
  }

  // No byte of either partition belongs to a partition that was there.
  lemma PlanMissesPartitions(r: Region, p: Plan, sector: int, start: int, end: int)
    requires SectorSize(sector) && Listed(r, sector) && PlanIn(r) == Some(p)
    requires start <= end && !Overlap(start, end, r.start, r.end)
    ensures !Overlap(start, end, p.espStart, SectorEnd(p.espEnd, sector))
    ensures !Overlap(start, end, p.rootStart, SectorEnd(p.rootEnd, sector))
    ensures !Overlap(p.espStart, SectorEnd(p.espEnd, sector), p.rootStart, SectorEnd(p.rootEnd, sector))
  {
    PlanFits(r, p, sector);
    PlanArithmetic(r, p);
  }

  // create_partition's tolerance check.
  predicate PassesSizeCheck(want: int, actual: int) {
    -1048576 <= actual - want <= 1048576
  }

  // The size parted then reports is accepted by create_partition.
  lemma PlanPassesSizeCheck(r: Region, p: Plan, sector: int)
    requires SectorSize(sector) && Listed(r, sector) && PlanIn(r) == Some(p)
    ensures PassesSizeCheck(p.espEnd - p.espStart, ReportedSize(p.espStart, p.espEnd, sector))
    ensures PassesSizeCheck(p.rootEnd - p.rootStart, ReportedSize(p.rootStart, p.rootEnd, sector))
  {
    PlanArithmetic(r, p);
    AlignedSectors(p.espEnd, sector);
    AlignedSectors(p.rootEnd, sector);
  }

  // A region is refused only if it could be short of 32 GiB after alignment.
  lemma EnoughSpaceIsAccepted(r: Region)
    requires r.start >= 0 && r.size == r.end - r.start + 1 && r.size >= 34361835520
    ensures PlanIn(r).Some?
  {
    assert AlignUp(r.start) < r.start + MIB && AlignDown(r.end) > r.end - MIB;
  }

  // On a blank disk both partitions leave a MiB at either end, and less than
  // 2 MiB at the far one.
  lemma BlankPlanFits(diskSize: int, p: Plan)
    requires diskSize > 0 && PlanIn(BlankRegion(diskSize)) == Some(p)
    ensures p.espStart == 1048576 && p.espEnd < p.rootStart < p.rootEnd <= diskSize - 1048576
    ensures diskSize - p.rootEnd < 2097152
    ensures p.espEnd - p.espStart == 2147483648 && p.rootEnd - p.espStart >= 34359738368
  {
    PlanArithmetic(BlankRegion(diskSize), p);
  }

  // A blank disk is accepted from 32 GiB and 2 MiB on.
  lemma BlankAcceptedIff(diskSize: int)
    requires diskSize > 0
    ensures PlanIn(BlankRegion(diskSize)).Some? <==> diskSize >= 34361835520
  {
    var end := BlankRegion(diskSize).end;
    assert AlignUp(1048576) == 1048576;
    assert AlignDown(end) == end;
  }
}
