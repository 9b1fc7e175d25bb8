/** The pacing state machine of the sender: a short gap between messages of
    one group and a longer gap whenever a new group starts. Time is not read
    here; each send is given the clock readings it would have made. */
module Pacing {
  import opened Ints

  /** A reading of `DateTime.Now`, as an abstract tick count. */
  type Instant = int

  /** `default(DateTime)`, the value of `lastSent` before the first send. */
  const NeverSent: Instant := 0

  /** What the clock says during one send: `elapsedMs` is the
      `(uint)(DateTime.Now - lastSent).TotalMilliseconds` read while choosing
      the gap (unconstrained on the first send), `now` is the instant stored
      in `lastSent` just before the transport is called. */
  datatype Clock = Clock(elapsedMs: uint32, now: Instant)

  /** The fields `groupIndex`, `groupSize`, `individualTimeGap`,
      `groupTimeGap` and `lastSent`. */
  datatype Pacing = Pacing(
    groupIndex: uint32,
    groupSize: uint32,
    individualGap: uint32,
    groupGap: uint32,
    lastSent: Instant)

  /** The field initialisers of a new sender. */
  const Initial: Pacing := Pacing(0, 0, 0, 0, NeverSent)

  /** `GetTimeGap`: how long to wait so that at least `configured`
      milliseconds separate this send from the previous one. */
  function GetTimeGap(configured: uint32, elapsed: uint32): (gap: uint32)
    ensures gap <= configured
    ensures elapsed as int + gap as int >= configured as int
    ensures gap > 0 ==> elapsed as int + gap as int == configured as int
    ensures gap > 0 <==> elapsed < configured
  {
    if configured == 0 then 0
    else if elapsed < configured then configured - elapsed
    else 0
  }

  /** No shorter wait would do: the gap is the least one that tops the
      elapsed time up to the configured spacing. */
  lemma GetTimeGapIsLeast(configured: uint32, elapsed: uint32, wait: nat)
    requires elapsed as int + wait >= configured as int
    ensures GetTimeGap(configured, elapsed) as int <= wait
  {
  }

  predicate IsGroupBoundary(p: Pacing) {
    p.groupIndex == p.groupSize
  }

  /** The pacing state once a gap has been chosen, and that gap. */
  datatype Slot = Slot(pacing: Pacing, gap: uint32)

  /** The group branch of `SendMailAsync`: at a group boundary the index
      restarts at 0 and the group gap applies, otherwise the individual gap. */
  function BeginSend(p: Pacing, elapsed: uint32): (s: Slot)
    ensures s.pacing == p.(groupIndex := s.pacing.groupIndex)
    ensures IsGroupBoundary(p) ==>
      && s.pacing.groupIndex == 0
      && s.gap <= p.groupGap
      && elapsed as int + s.gap as int >= p.groupGap as int
      && (s.gap > 0 <==> elapsed < p.groupGap)
      && (s.gap > 0 ==> elapsed as int + s.gap as int == p.groupGap as int)
    ensures !IsGroupBoundary(p) ==>
      && s.pacing == p
      && s.gap <= p.individualGap
      && elapsed as int + s.gap as int >= p.individualGap as int
      && (s.gap > 0 <==> elapsed < p.individualGap)
      && (s.gap > 0 ==> elapsed as int + s.gap as int == p.individualGap as int)
  {
    if IsGroupBoundary(p) then Slot(p.(groupIndex := 0), GetTimeGap(p.groupGap, elapsed))
    else Slot(p, GetTimeGap(p.individualGap, elapsed))
  }

  /** The gap a send starting from `p` waits. */
  function GapOf(p: Pacing, elapsed: uint32): uint32 {
    BeginSend(p, elapsed).gap
  }

  /** One completed send: choose the gap, stamp `lastSent`, count the message
      with `groupIndex++` (a 32-bit unsigned increment). */
  function PacingStep(p: Pacing, clock: Clock): (q: Pacing)
    ensures q.groupSize == p.groupSize && q.individualGap == p.individualGap && q.groupGap == p.groupGap
    ensures q.lastSent == clock.now
    ensures q.groupIndex as int
         == ((if IsGroupBoundary(p) then 0 else p.groupIndex as int) + 1) % UInt32Limit
  {
    var slot := BeginSend(p, clock.elapsedMs);
    slot.pacing.(lastSent := clock.now, groupIndex := Inc(slot.pacing.groupIndex))
  }

  /** With a positive group size the index never leaves `[1, groupSize]`
      once a message has been sent. */
  lemma PacingStepKeepsIndexInGroup(p: Pacing, clock: Clock)
    requires 1 <= p.groupSize && p.groupIndex <= p.groupSize
    ensures 1 <= PacingStep(p, clock).groupIndex <= p.groupSize
  {
  }

  /** The state after a series of completed sends, one clock reading each. */
  function Run(p: Pacing, clocks: seq<Clock>): (q: Pacing)
    ensures q.groupSize == p.groupSize && q.individualGap == p.individualGap && q.groupGap == p.groupGap
    ensures |clocks| > 0 ==> q.lastSent == clocks[|clocks| - 1].now
    decreases |clocks|
  {
    if |clocks| == 0 then p
    else PacingStep(Run(p, clocks[..|clocks| - 1]), clocks[|clocks| - 1])
  }

  /** The gap each of a series of sends waits. */
  function Gaps(p: Pacing, clocks: seq<Clock>): (gaps: seq<uint32>)
    ensures |gaps| == |clocks|
    decreases |clocks|
  {
    if |clocks| == 0 then []
    else
      var before := clocks[..|clocks| - 1];
      var last := clocks[|clocks| - 1];
      Gaps(p, before) + [GapOf(Run(p, before), last.elapsedMs)]
  }

  /** Quotient and remainder are determined by any decomposition of `x`. */
  lemma DivModUnique(x: int, n: int, q: int, r: int)
    requires n >= 1 && 0 <= r < n && x == q * n + r
    ensures x % n == r
  {
    var q0, r0 := x / n, x % n;
    assert (q - q0) * n == r0 - r;
    if q > q0 {
      MulAtLeast(q - q0, n);
    } else if q < q0 {
      MulAtLeast(q0 - q, n);
    }
  }

  lemma MulAtLeast(d: int, n: int)
    requires d >= 1 && n >= 1
    ensures d * n >= n
  {
    assert d * n == (d - 1) * n + n;
  }

  /** Step of the remainder modulo a positive divisor. */
  lemma ModSucc(a: nat, n: nat)
    requires n >= 1
    ensures (a + 1) % n == if a % n == n - 1 then 0 else a % n + 1
  {
    var q, r := a / n, a % n;
    if r == n - 1 {
      DivModUnique(a + 1, n, q + 1, 0);
    } else {
      DivModUnique(a + 1, n, q, r + 1);
    }
  }

  /** Starting from a fresh index with a group size `n >= 1`, after `k >= 1`
      sends the index is `(k - 1) % n + 1`: it counts 1, 2, ..., n, 1, 2, ... */
  lemma {:induction false} RunIndex(p: Pacing, clocks: seq<Clock>)
    requires p.groupIndex == 0 && p.groupSize >= 1
    ensures Run(p, clocks).groupIndex as int
         == if |clocks| == 0 then 0 else (|clocks| - 1) % p.groupSize as int + 1
    decreases |clocks|
  {
    var k := |clocks|;
    if k > 1 {
      var before := clocks[..k - 1];
      RunIndex(p, before);
      ModSucc(k - 2, p.groupSize as int);
    }
  }

  /** With a group size `n >= 1` the group gap applies to sends
      n+1, 2n+1, ...: the state after `k` sends is a group boundary exactly
      when `k` is a positive multiple of `n`. */
  lemma GroupBoundaryEveryGroupSize(p: Pacing, clocks: seq<Clock>)
    requires p.groupIndex == 0 && p.groupSize >= 1
    ensures IsGroupBoundary(Run(p, clocks)) <==> |clocks| >= 1 && |clocks| % p.groupSize as int == 0
    ensures |clocks| >= 1 ==> 1 <= Run(p, clocks).groupIndex <= p.groupSize
  {
    RunIndex(p, clocks);
    if |clocks| >= 1 {
      ModSucc(|clocks| - 1, p.groupSize as int);
    }
  }

  /** With group size 0 the index counts sends modulo 2^32. */
  lemma {:induction false} RunIndexZeroGroup(p: Pacing, clocks: seq<Clock>)
    requires p.groupIndex == 0 && p.groupSize == 0
    ensures Run(p, clocks).groupIndex as int == |clocks| % UInt32Limit
    decreases |clocks|
  {
    var k := |clocks|;
    if k > 0 {
      RunIndexZeroGroup(p, clocks[..k - 1]);
      ModSucc(k - 1, UInt32Limit);
    }
  }

  /** With group size 0 only the first send (and, after 2^32 sends wrap the
      index, every 2^32-th after it) takes the group gap. */
  lemma ZeroGroupSizeOnlyFirstBoundary(p: Pacing, clocks: seq<Clock>)
    requires p.groupIndex == 0 && p.groupSize == 0
    ensures IsGroupBoundary(Run(p, clocks)) <==> |clocks| % UInt32Limit == 0
    ensures 1 <= |clocks| < UInt32Limit ==> !IsGroupBoundary(Run(p, clocks))
  {
    RunIndexZeroGroup(p, clocks);
  }

  /** A group size set below the current index is never met again before
      the index wraps: the sends go on taking the individual gap and the
      index keeps counting up. */
  lemma {:induction false} IndexPastGroupSize(p: Pacing, clocks: seq<Clock>)
    requires p.groupIndex > p.groupSize
    requires p.groupIndex as int + |clocks| < UInt32Limit
    ensures Run(p, clocks).groupIndex as int == p.groupIndex as int + |clocks|
    ensures !IsGroupBoundary(Run(p, clocks))
    decreases |clocks|
  {
    if |clocks| > 0 {
      IndexPastGroupSize(p, clocks[..|clocks| - 1]);
    }
  }

  /** Index 3 with groups of two: no boundary, and the next index is 4. */
  lemma IndexPastGroupSizeExample(clock: Clock)
    ensures var p := Initial.(groupIndex := 3, groupSize := 2);
            && !IsGroupBoundary(p)
            && PacingStep(p, clock).groupIndex == 4
            && GapOf(p, clock.elapsedMs) == GetTimeGap(p.individualGap, clock.elapsedMs)
  {
  }

  /** Three sends in quick succession with groups of two, 50 ms within a
      group and 500 ms between groups: the second waits 50 ms, the third 500. */
  lemma TwoPerGroupExample(first: uint32, t0: Instant, t1: Instant, t2: Instant)
    ensures var p := Initial.(groupSize := 2, individualGap := 50, groupGap := 500);
            var gaps := Gaps(p, [Clock(first, t0), Clock(0, t1), Clock(0, t2)]);
            gaps[0] <= 50 && gaps[1] == 50 && gaps[2] == 500
  {
    var p := Initial.(groupSize := 2, individualGap := 50, groupGap := 500);
    var cs := [Clock(first, t0), Clock(0, t1), Clock(0, t2)];
    assert cs[..2][..1] == cs[..1] && cs[..1][..0] == [];
    var p1 := PacingStep(p, cs[0]);
    assert Run(p, cs[..1]) == p1 && p1.groupIndex == 1;
    var p2 := PacingStep(p1, cs[1]);
    assert Run(p, cs[..2]) == p2 && p2.groupIndex == 2;
    assert Gaps(p, cs[..1]) == [GapOf(p, first)];
    assert Gaps(p, cs[..2]) == [GapOf(p, first), GapOf(p1, 0)];
  }
}
