// The dashboard's progress estimate, in per-mille of the bar, one frame at a time.
module InstallProgress {
  import opened Wrappers

  const BONUS_MAX: int := 100
  const TAIL: int := 40
  const FLOOR_TAU: int := 900
  const FULL: int := 1000

  const PACKAGES: string := "Installing CachyOS + Monarch"

  // What one frame reads: nothing usable, or the published state with the
  // current time and the number of installed packages.
  datatype Frame =
    | Unreadable
    | Frame(phase: string, finished: int, index: int, total: int, now: int, packages: nat)

  // The counters that survive between frames.
  datatype Bar = Bar(pos: int, phase: string, t0: int, lo: int, base: int, seen: int, bonus: int, lastChange: int)

  datatype Band = Band(lo: int, hi: int, tau: int, packages: bool)

  function NamedBand(phase: string): Option<Band> {
    if phase == "Starting installation" then Some(Band(10, 25, 5, false))
    else if phase == "Preparing live environment" then Some(Band(25, 50, 25, false))
    else if phase == "Preparing install target" then Some(Band(50, 65, 20, false))
    else if phase == PACKAGES then Some(Band(65, 700, 150, true))
    else if phase == "Configuring hibernation" then Some(Band(700, 720, 10, false))
    else if phase == "Configuring system" then Some(Band(720, 850, 120, false))
    else if phase == "Staging provisioning" then Some(Band(850, 855, 5, false))
    else if phase == "Finalizing Limine boot" then Some(Band(855, 950, 90, false))
    else if phase == "Finalizing user" then Some(Band(950, 978, 30, false))
    else if phase == "Configuring login" then Some(Band(978, 988, 5, false))
    else if phase == "Configuring DNS resolver" then Some(Band(988, 994, 5, false))
    else if phase == "Validating boot setup" then Some(Band(994, 998, 5, false))
    else if phase == "Creating factory snapshot" then Some(Band(998, 1000, 5, false))
    else None
  }

  predicate Indexed(f: Frame)
    requires f.Frame?
  {
    f.total >= 2 && 0 <= f.index < f.total
  }

  function BandOf(f: Frame, lo: int): Band
    requires f.Frame?
  {
    match NamedBand(f.phase)
    case Some(b) => b
    case None =>
      if Indexed(f) then Band(10 + 990 * f.index / f.total, 10 + 990 * (f.index + 1) / f.total, 60, false)
      else Band(lo, lo + 30, 60, false)
  }

  predicate Completes(f: Frame) {
    f.Frame? && (f.finished > 0 || f.phase == "Installation complete")
  }

  function Max(a: int, b: int): int {
    if a >= b then a else b
  }

  function Min(a: int, b: int): int {
    if a <= b then a else b
  }

  // The time floor: approaches the end of the band without reaching it.
  function Floor(lo: int, span: int, tau: int, t: int): int
    requires t >= 0 && tau >= 1
  {
    lo + (span - 1) * t / (t + tau)
  }

  function Entered(b: Bar, f: Frame): Bar
    requires f.Frame?
  {
    if f.phase != b.phase
    then b.(phase := f.phase, t0 := f.now, lo := b.pos, base := -1, seen := 0, bonus := 0, lastChange := f.now)
    else b
  }

  // The package counters after a frame of the package phase.
  function Counted(b: Bar, f: Frame): Bar
    requires f.Frame?
  {
    var base := if b.base < 0 then f.packages else b.base;
    var n := Max(f.packages - base, 0);
    var b1 := if n > b.seen then b.(base := base, seen := n, lastChange := f.now) else b.(base := base);
    b1.(bonus := Max(b1.bonus, Min(Max(f.now - b1.lastChange, 0), BONUS_MAX)))
  }

  function Span(band: Band): int {
    Max(band.hi - band.lo, 2)
  }

  // One frame within a band, from the counters as the phase was entered.
  function Advance(b: Bar, band: Band, f: Frame, expected: nat): Bar
    requires f.Frame?
  {
    var signal := band.packages && expected > 0;
    var tau := Max(if signal then FLOOR_TAU else band.tau, 1);
    var byTime := Floor(band.lo, Span(band), tau, Max(f.now - b.t0, 0));
    var b2 := if signal then Counted(b, f) else b;
    var best := if signal then Max(byTime, ByWork(band, b2, expected)) else byTime;
    b2.(pos := Min(Max(Min(best, band.hi - 1), b2.pos), FULL))
  }

  function ByWork(band: Band, b: Bar, expected: nat): int
    requires expected > 0
  {
    band.lo + (Span(band) - 1 - TAIL) * b.seen / expected + b.bonus
  }

  function Next(b: Bar, f: Frame, expected: nat): Bar {
    if f.Unreadable? then b
    else if Completes(f) then b.(pos := FULL)
    else Advance(Entered(b, f), BandOf(f, Entered(b, f).lo), f, expected)
  }

  function Frames(b: Bar, frames: seq<Frame>, expected: nat): Bar {
    if frames == [] then b else Next(Frames(b, frames[..|frames| - 1], expected), frames[|frames| - 1], expected)
  }

  const START := Bar(10, "", 0, 10, -1, 0, 0, 0)

  // ----- the script's own variables

  class Dashboard {
    var bar: Bar
    var progress: int
    const expected: nat

    constructor (packages: nat)
      ensures bar == START && progress == 10
      ensures expected == if packages < 300 || packages > 5000 then 0 else packages
    {
      bar, progress := START, 10;
      expected := if packages < 300 || packages > 5000 then 0 else packages;
    }

    method CountPackages(f: Frame)
      requires f.Frame?
      modifies this`bar
      ensures bar == Counted(old(bar), f)
    {
      if bar.base < 0 { bar := bar.(base := f.packages); }
      var n := f.packages - bar.base;
      if n < 0 { n := 0; }
      if n > bar.seen { bar := bar.(seen := n, lastChange := f.now); }
      var gap := f.now - bar.lastChange;
      if gap < 0 { gap := 0; }
      if gap > BONUS_MAX { gap := BONUS_MAX; }
      if gap > bar.bonus { bar := bar.(bonus := gap); }
    }

    method InstallProgress(f: Frame)
      modifies this
      ensures bar == Next(old(bar), f, expected)
      ensures progress == bar.pos
    {
      progress := bar.pos;
      if f.Unreadable? {
        return;
      }
      if f.finished > 0 || f.phase == "Installation complete" {
        bar := bar.(pos := FULL);
        progress := FULL;
        return;
      }
      if f.phase != bar.phase {
        bar := Bar(bar.pos, f.phase, f.now, bar.pos, -1, 0, 0, f.now);
      }
      AdvanceBar(BandOf(f, bar.lo), f);
      progress := bar.pos;
    }

    method AdvanceBar(band: Band, f: Frame)
      requires f.Frame?
      modifies this`bar
      ensures bar == Advance(old(bar), band, f, expected)
    {
      var signal := band.packages && expected > 0;
      var tau := if signal then FLOOR_TAU else band.tau;
      var t := f.now - bar.t0;
      if t < 0 { t := 0; }
      var span := band.hi - band.lo;
      if span < 2 { span := 2; }
      if tau < 1 { tau := 1; }
      var pos := Floor(band.lo, span, tau, t);
      if signal {
        CountPackages(f);
        var work := ByWork(band, bar, expected);
        if work > pos { pos := work; }
      }
      if pos > band.hi - 1 { pos := band.hi - 1; }
      if pos > bar.pos { bar := bar.(pos := pos); }
      if bar.pos > FULL { bar := bar.(pos := FULL); }
    }
  }

  // ----- the time floor

  lemma MulMono(k: int, a: int, b: int)
    requires k >= 0 && a <= b
    ensures k * a <= k * b
  {
  }

  lemma DivisionAtLeast(a: int, d: int, q: int)
    requires d > 0
    ensures a / d >= q <==> a >= q * d
  {
    var r := a / d;
    assert a == r * d + a % d;
    if r >= q { MulMono(d, q, r); } else { MulMono(d, r + 1, q); }
  }

  lemma FloorMonotone(lo: int, span: int, tau: int, t: int, u: int)
    requires 0 <= t <= u && tau >= 1 && span >= 2
    ensures Floor(lo, span, tau, t) <= Floor(lo, span, tau, u)
  {
    var k := span - 1;
    var q := k * t / (t + tau);
    DivisionAtLeast(k * t, t + tau, q);
    // q*(t+tau) <= k*t, and q <= k, so q*(u+tau) <= k*t + q*(u-t) <= k*u
    FloorShare(k, t, tau, q);
    assert q * (u + tau) == q * (t + tau) + q * (u - t);
    MulMono(u - t, q, k);
    assert k * u == k * t + k * (u - t);
    DivisionAtLeast(k * u, u + tau, q);
  }

  lemma FloorShare(k: int, t: int, tau: int, q: int)
    requires k >= 0 && t >= 0 && tau >= 1 && q == k * t / (t + tau)
    ensures 0 <= q <= k
    ensures k > 0 ==> q < k
  {
    DivisionAtLeast(k * t, t + tau, 0);
    assert k * (t + tau) == k * t + k * tau;
    if k > 0 { MulMono(tau, 1, k); }
    DivisionAtLeast(k * t, t + tau, k);
    DivisionAtLeast(k * t, t + tau, k + 1);
    assert (k + 1) * (t + tau) == k * (t + tau) + (t + tau);
  }

  // Never the last position of the band by time alone; the one before it
  // exactly when t has reached (span - 2) * tau.
  lemma FloorApproaches(lo: int, span: int, tau: int, t: int)
    requires t >= 0 && tau >= 1 && span >= 2
    ensures lo <= Floor(lo, span, tau, t) <= lo + span - 2
    ensures Floor(lo, span, tau, t) == lo + span - 2 <==> t >= (span - 2) * tau
  {
    var k := span - 1;
    FloorShare(k, t, tau, k * t / (t + tau));
    DivisionAtLeast(k * t, t + tau, k - 1);
    assert (k - 1) * (t + tau) == k * t - t + (k - 1) * tau;
  }

  // ----- positions over frames

  ghost predicate Sound(b: Bar) {
    b.pos <= FULL
  }

  const IN_ORDER: seq<string> := [
    "Starting installation", "Preparing live environment", "Preparing install target", PACKAGES,
    "Configuring hibernation", "Configuring system", "Staging provisioning", "Finalizing Limine boot",
    "Finalizing user", "Configuring login", "Configuring DNS resolver", "Validating boot setup",
    "Creating factory snapshot"]

  // The bands of the named phases follow one another from 10 to the full bar, and
  // only that of the package phase counts packages.
  lemma BandsTile(i: nat)
    requires i < |IN_ORDER|
    ensures NamedBand(IN_ORDER[i]).Some?
    ensures var band := NamedBand(IN_ORDER[i]).value;
      && band.lo < band.hi && band.tau > 0 && (band.packages <==> IN_ORDER[i] == PACKAGES)
      && (i == 0 ==> band.lo == 10)
      && (if i == 12 then band.hi == 1000
          else NamedBand(IN_ORDER[i + 1]).Some? && band.hi == NamedBand(IN_ORDER[i + 1]).value.lo)
  {
  }

  // The bands of indexed phases do too.
  lemma IndexedBandsTile(f: Frame, g: Frame, lo: int)
    requires f.Frame? && g.Frame? && NamedBand(f.phase).None? && NamedBand(g.phase).None?
    requires f.total == g.total >= 2 && 0 <= f.index && f.index + 1 == g.index < f.total
    ensures BandOf(f, lo).hi == BandOf(g, lo).lo
    ensures f.index == 0 ==> BandOf(f, lo).lo == 10
    ensures g.index + 1 == g.total ==> BandOf(g, lo).hi == 1000
  {
    if g.index + 1 == g.total {
      DivisionAtLeast(990 * g.total, g.total, 990);
      DivisionAtLeast(990 * g.total, g.total, 991);
    }
  }

  lemma FrameNeverBack(b: Bar, f: Frame, expected: nat)
    requires Sound(b)
    ensures Sound(Next(b, f, expected)) && b.pos <= Next(b, f, expected).pos
  {
  }

  lemma {:induction false} FramesNeverBack(b: Bar, frames: seq<Frame>, expected: nat, i: nat)
    requires Sound(b) && i <= |frames|
    ensures Sound(Frames(b, frames, expected))
    ensures b.pos <= Frames(b, frames[..i], expected).pos <= Frames(b, frames, expected).pos
    decreases |frames|
  {
    if frames == [] {
    } else {
      var front, last := frames[..|frames| - 1], frames[|frames| - 1];
      FramesNeverBack(b, front, expected, if i < |frames| then i else i - 1);
      FrameNeverBack(Frames(b, front, expected), last, expected);
      if i < |frames| {
        assert front[..i] == frames[..i];
      } else {
        assert frames[..i] == frames && front[..i - 1] == front;
      }
    }
  }

  predicate Published(f: Frame) {
    f.Frame? ==> NamedBand(f.phase).Some? || Indexed(f)
  }

  lemma IndexedBandEnds(index: int, total: int)
    requires total >= 2 && 0 <= index < total
    ensures 10 + 990 * (index + 1) / total <= FULL
  {
    MulMono(990, index + 1, total);
    DivisionAtLeast(990 * (index + 1), total, 991);
    assert 991 * total == 990 * total + total;
  }

  lemma BandEnds(f: Frame, lo: int)
    requires f.Frame? && Published(f)
    ensures BandOf(f, lo).hi <= FULL
  {
    if NamedBand(f.phase).None? { IndexedBandEnds(f.index, f.total); }
  }

  lemma FrameStaysBelow(b: Bar, f: Frame, expected: nat)
    requires b.pos < FULL && Published(f) && !Completes(f)
    ensures Next(b, f, expected).pos < FULL
  {
    if f.Frame? { BandEnds(f, Entered(b, f).lo); }
  }

  // With published phases the bar is short of full until the installation is
  // complete, and full from then on.
  lemma {:induction false} FullOnlyWhenComplete(b: Bar, frames: seq<Frame>, expected: nat)
    requires b.pos < FULL && forall i :: 0 <= i < |frames| ==> Published(frames[i])
    ensures Frames(b, frames, expected).pos == FULL <==> exists i :: 0 <= i < |frames| && Completes(frames[i])
    ensures Frames(b, frames, expected).pos <= FULL
    decreases |frames|
  {
    if frames != [] {
      var front, last := frames[..|frames| - 1], frames[|frames| - 1];
      FullOnlyWhenComplete(b, front, expected);
      FrameNeverBack(Frames(b, front, expected), last, expected);
      if Frames(b, front, expected).pos < FULL && !Completes(last) {
        FrameStaysBelow(Frames(b, front, expected), last, expected);
      }
      assert forall i :: 0 <= i < |front| ==> front[i] == frames[i];
      if i :| 0 <= i < |frames| && Completes(frames[i]) && i < |front| { assert Completes(front[i]); }
    }
  }

  // A phase with neither a known name nor an index can fill the bar on its own,
  // given time, exactly when it was entered within 28 of the end.
  lemma UnpublishedCanFillIff(b: Bar, f: Frame, expected: nat)
    requires f.Frame? && !Published(f) && !Completes(f) && f.phase == b.phase && b.pos < FULL
    ensures (exists now :: Next(b, f.(now := now), expected).pos == FULL) <==> b.lo + 28 >= FULL
  {
    if b.lo + 28 >= FULL {
      var now := Max(b.t0, 0) + 28 * 60 + Max(-b.t0, 0);
      FloorApproaches(b.lo, 30, 60, Max(now - b.t0, 0));
      assert Next(b, f.(now := now), expected).pos == FULL;
    }
    forall now | b.lo + 28 < FULL ensures Next(b, f.(now := now), expected).pos < FULL {
      FloorApproaches(b.lo, 30, 60, Max(now - b.t0, 0));
    }
  }

  const FINALIZING := Frame("Finalizing user", 0, 8, 15, 0, 0)

  const CLEANING := Frame("Cleaning up", 0, -1, 0, 900, 0)

  // Without a package count a frame moves the bar by time alone.
  lemma ByTimeAlone(b: Bar, f: Frame, band: Band)
    requires f.Frame? && !Completes(f) && BandOf(f, Entered(b, f).lo) == band && band.tau >= 1
    ensures var b1 := Entered(b, f);
      var floor := Floor(band.lo, Span(band), band.tau, Max(f.now - b1.t0, 0));
      Next(b, f, 0) == b1.(pos := Min(Max(Min(floor, band.hi - 1), b1.pos), FULL))
  {
  }

  lemma ExampleBands()
    ensures NamedBand(FINALIZING.phase) == Some(Band(950, 978, 30, false))
    ensures NamedBand(CLEANING.phase) == None && CLEANING.phase != FINALIZING.phase
    ensures !Completes(FINALIZING) && !Completes(CLEANING)
  {
  }

  // The last known phase for 13 minutes, then an unpublished one for 28.
  lemma UnpublishedFills(b: Bar)
    requires b.pos == 950 && b.phase != FINALIZING.phase
    ensures !Completes(FINALIZING) && !Completes(CLEANING)
    ensures var b2 := Next(Next(b, FINALIZING, 0), FINALIZING.(now := 780), 0);
      b2.pos == 976 && Next(Next(b2, CLEANING, 0), CLEANING.(now := 2580), 0).pos == FULL
  {
    var band := Band(950, 978, 30, false);
    ExampleBands();
    FloorApproaches(950, 28, 30, 0);
    FloorApproaches(950, 28, 30, 780);
    ByTimeAlone(b, FINALIZING, band);
    var b1 := Next(b, FINALIZING, 0);
    ByTimeAlone(b1, FINALIZING.(now := 780), band);
    CleaningFills(Next(b1, FINALIZING.(now := 780), 0));
  }

  lemma CleaningFills(b: Bar)
    requires b.pos == 976 && b.phase == FINALIZING.phase
    ensures Next(Next(b, CLEANING, 0), CLEANING.(now := 2580), 0).pos == FULL
  {
    var band := Band(976, 1006, 60, false);
    ExampleBands();
    FloorApproaches(976, 30, 60, 0);
    FloorApproaches(976, 30, 60, 1680);
    ByTimeAlone(b, CLEANING, band);
    ByTimeAlone(Next(b, CLEANING, 0), CLEANING.(now := 2580), band);
  }

  // ----- the package counters

  predicate PackageFrame(f: Frame) {
    f.Frame? && f.phase == PACKAGES && f.finished <= 0
  }

  ghost predicate PackageFrames(frames: seq<Frame>) {
    forall i :: 0 <= i < |frames| ==> frames[i].Frame? && PackageFrame(frames[i])
  }

  // Over the frames of the package phase: the baseline is the first count, seen
  // the largest number of packages above it, last grown when that number was
  // first reached, and the bonus a wait between nothing and its cap.
  ghost predicate CountsOf(b: Bar, frames: seq<Frame>)
    requires frames != [] && PackageFrames(frames)
  {
    && b.phase == PACKAGES && b.base == frames[0].packages
    && (forall i :: 0 <= i < |frames| ==> frames[i].packages - b.base <= b.seen)
    && (exists j :: GrewAt(b, frames, j))
    && 0 <= b.bonus <= BONUS_MAX
    && Min(Max(frames[|frames| - 1].now - b.lastChange, 0), BONUS_MAX) <= b.bonus
  }

  ghost predicate GrewAt(b: Bar, frames: seq<Frame>, j: int)
    requires PackageFrames(frames)
  {
    && 0 <= j < |frames| && frames[j].packages - b.base == b.seen && frames[j].now == b.lastChange
    && forall i :: 0 <= i < j ==> frames[i].packages - b.base < b.seen
  }

  lemma FirstCounts(b: Bar, f: Frame, expected: nat)
    requires b.phase != PACKAGES && expected > 0 && PackageFrame(f)
    ensures CountsOf(Next(b, f, expected), [f])
  {
    assert GrewAt(Next(b, f, expected), [f], 0);
  }

  lemma OneMoreCounts(b: Bar, front: seq<Frame>, f: Frame, expected: nat)
    requires expected > 0 && PackageFrames(front) && front != [] && PackageFrame(f)
    requires CountsOf(b, front)
    ensures PackageFrames(front + [f]) && CountsOf(Next(b, f, expected), front + [f])
  {
    var r, frames := Next(b, f, expected), front + [f];
    var j :| GrewAt(b, front, j);
    assert r == Advance(b, BandOf(f, b.lo), f, expected);
    assert r.base == b.base && r.seen == Max(b.seen, f.packages - b.base);
    assert forall i :: 0 <= i < |front| ==> frames[i] == front[i];
    if r.seen > b.seen {
      assert GrewAt(r, frames, |front|);
    } else {
      assert GrewAt(r, frames, j);
    }
  }

  lemma {:induction false} PackageCounters(b: Bar, frames: seq<Frame>, expected: nat)
    requires b.phase != PACKAGES && expected > 0 && frames != [] && PackageFrames(frames)
    ensures CountsOf(Frames(b, frames, expected), frames)
    decreases |frames|
  {
    var front, last := frames[..|frames| - 1], frames[|frames| - 1];
    assert frames == front + [last];
    if front == [] {
      FirstCounts(b, last, expected);
    } else {
      PackageCounters(b, front, expected);
      OneMoreCounts(Frames(b, front, expected), front, last, expected);
    }
  }

  // At frame i the count was last higher than ever before at frame j.
  ghost predicate HighestAt(frames: seq<Frame>, i: int, j: int)
    requires PackageFrames(frames)
  {
    && 0 <= j <= i < |frames|
    && (forall k :: 0 <= k <= i ==> frames[k].packages <= frames[j].packages)
    && (forall k :: 0 <= k < j ==> frames[k].packages < frames[j].packages)
  }

  // Seconds without a new package, of which at most 100 count.
  ghost function WaitBetween(frames: seq<Frame>, i: int, j: int): int
    requires PackageFrames(frames) && 0 <= i < |frames| && 0 <= j < |frames|
  {
    var seconds := frames[i].now - frames[j].now;
    if seconds < 0 then 0 else if seconds > 100 then 100 else seconds
  }

  ghost predicate LongestWait(frames: seq<Frame>, bonus: int)
    requires PackageFrames(frames)
  {
    && (forall i, j :: HighestAt(frames, i, j) ==> WaitBetween(frames, i, j) <= bonus)
    && (exists i, j :: HighestAt(frames, i, j) && WaitBetween(frames, i, j) == bonus)
  }

  lemma LongestWithOneMore(front: seq<Frame>, f: Frame, bonus: int, j: int)
    requires PackageFrames(front) && PackageFrame(f) && (front == [] || LongestWait(front, bonus))
    requires front == [] ==> bonus == 0
    requires PackageFrames(front + [f]) && HighestAt(front + [f], |front|, j)
    ensures LongestWait(front + [f], Max(bonus, WaitBetween(front + [f], |front|, j)))
  {
    var frames, n := front + [f], |front|;
    assert forall i :: 0 <= i < n ==> frames[i] == front[i];
    forall i, k | HighestAt(frames, i, k) ensures if i < n then HighestAt(front, i, k) else i == n && k == j {
    }
    if front != [] {
      var i, k :| HighestAt(front, i, k) && WaitBetween(front, i, k) == bonus;
      assert HighestAt(frames, i, k) && WaitBetween(frames, i, k) == bonus;
      assert forall i, k :: HighestAt(front, i, k) ==> WaitBetween(frames, i, k) == WaitBetween(front, i, k);
    }
  }

  // The bonus is the longest such wait within the phase so far.
  lemma {:induction false} BonusIsLongestWait(b: Bar, frames: seq<Frame>, expected: nat)
    requires b.phase != PACKAGES && expected > 0 && frames != [] && PackageFrames(frames)
    ensures LongestWait(frames, Frames(b, frames, expected).bonus)
    decreases |frames|
  {
    var front, f := frames[..|frames| - 1], frames[|frames| - 1];
    assert frames == front + [f];
    PackageCounters(b, frames, expected);
    var j := GrewIsHighest(Frames(b, frames, expected), frames);
    BonusStep(Frames(b, front, expected), f, expected);
    if front == [] {
      LongestWithOneMore(front, f, 0, j);
    } else {
      BonusIsLongestWait(b, front, expected);
      PackageCounters(b, front, expected);
      LongestWithOneMore(front, f, Frames(b, front, expected).bonus, j);
    }
  }

  lemma GrewIsHighest(r: Bar, frames: seq<Frame>) returns (j: int)
    requires frames != [] && PackageFrames(frames) && CountsOf(r, frames)
    ensures HighestAt(frames, |frames| - 1, j)
    ensures WaitBetween(frames, |frames| - 1, j) == Min(Max(frames[|frames| - 1].now - r.lastChange, 0), 100)
  {
    j :| GrewAt(r, frames, j);
  }

  lemma BonusStep(b: Bar, f: Frame, expected: nat)
    requires PackageFrame(f) && expected > 0
    ensures var r := Next(b, f, expected);
      r.bonus == Max(if b.phase == PACKAGES then b.bonus else 0, Min(Max(f.now - r.lastChange, 0), 100))
  {
  }

  // Where a frame of the phase puts the bar: 65 and a share of 594 by packages,
  // the bonus on top, or by time if that is more; never back and short of 700.
  lemma PackagePosition(b: Bar, f: Frame, expected: nat) returns (share: int, time: int)
    requires PackageFrame(f) && b.phase == PACKAGES && expected > 0 && 0 <= b.pos <= FULL && b.seen >= 0
    ensures var r := Next(b, f, expected); share * expected <= 594 * r.seen < (share + 1) * expected
    ensures var t := if f.now > b.t0 then f.now - b.t0 else 0;
      time * (t + 900) <= 634 * t < (time + 1) * (t + 900)
    ensures var r := Next(b, f, expected);
      r.pos == Max(b.pos, Min(699, 65 + Max(time, share + r.bonus)))
  {
    var r := Next(b, f, expected);
    var t := if f.now > b.t0 then f.now - b.t0 else 0;
    share, time := 594 * r.seen / expected, 634 * t / (t + 900);
    Quotient(594 * r.seen, expected, share);
    Quotient(634 * t, t + 900, time);
    PackageBand();
  }

  lemma Quotient(a: int, d: int, q: int)
    requires d > 0 && q == a / d
    ensures q * d <= a < (q + 1) * d
  {
    assert a == q * d + a % d;
    assert (q + 1) * d == q * d + d;
  }

  lemma PackageBand()
    ensures NamedBand(PACKAGES) == Some(Band(65, 700, 150, true))
  {
  }

  // Within the phase neither the count nor the bonus ever falls.
  lemma PackageCountersGrow(b: Bar, f: Frame, expected: nat)
    requires PackageFrame(f) && b.phase == PACKAGES && expected > 0
    ensures b.seen <= Next(b, f, expected).seen && b.bonus <= Next(b, f, expected).bonus
  {
  }
}
