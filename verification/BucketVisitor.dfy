/** The depth-first walk over the bucket ladder (recursive_bucket_visitor.rs). */
module BucketVisitor {
  import opened Results
  import opened Arith
  import opened Bytes
  import opened Buckets

  datatype Event = Opened(time: int, level: nat) | Closed(time: int, level: nat)

  datatype OpenAnswer = WithChildren | WithoutChildren | StopOpening

  datatype CloseAnswer = Continue | StopClosing

  /** The two callbacks, as functions of what they have been told so far and of the bucket at hand. */
  datatype Callbacks = Callbacks(onOpen: (seq<Event>, int, nat) -> OpenAnswer,
                                 onClose: (seq<Event>, int, nat) -> CloseAnswer)

  datatype Frame = OpenFrame(time: int, level: nat, oldest: int) | CloseFrame(time: int, level: nat)

  /** What has been visited, and whether the walk may go on. */
  datatype Walk = Walk(trace: seq<Event>, goesOn: bool)

  /** `i64::saturating_add` and `saturating_sub` of a positive duration. */
  function SatAdd(t: int, d: nat): int {
    if t + d > I64_MAX then I64_MAX else t + d
  }

  function SatSub(t: int, d: nat): int {
    if t - d < I64_MIN then I64_MIN else t - d
  }

  function Gap(t: int, oldest: int): nat {
    if t >= oldest then t - oldest else 0
  }

  /** What a turn of the loop leaves: a stack and a trace, or an early end. */
  datatype Pumped = Running(frames: seq<Frame>, trace: seq<Event>) | Ended(trace: seq<Event>)

  /** The durations walked, coarsest first, the exclusive upper end, and the callbacks. */
  datatype Visit = Visit(ds: seq<nat>, max: i64, calls: Callbacks) {

    /** Positive durations, coarsest first. */
    ghost predicate Valid() {
      && (forall i :: 0 <= i < |ds| ==> 0 < ds[i] <= I64_MAX)
      && (forall i :: 0 <= i < |ds| - 1 ==> ds[i + 1] <= ds[i])
    }

    /** Not at the very start of i64, where subtracting a duration would stand still, unless too late to be opened. */
    predicate Moves(t: int) {
      t > I64_MIN || t >= max
    }

    /** Where the walk enters the level below an opened bucket. */
    function FirstChild(i: nat, t: int): int
      requires Valid() && i + 1 < |ds|
    {
      var latest := RoundDown(max, ds[i + 1]);
      var last := SatSub(SatAdd(t, ds[i]), ds[i + 1]);
      if latest < last then latest else last
    }

    lemma FirstChildMoves(i: nat, t: int)
      requires Valid() && i + 1 < |ds| && I64_MIN < t < max
      ensures Moves(FirstChild(i, t))
    {
      RoundDownShrinks(max, ds[i + 1]);
    }

    // The walk as a recursion over buckets.

    function Bucket(i: nat, t: int, hist: seq<Event>): Walk
      requires Valid() && i < |ds| && Moves(t)
      decreases |ds| - i, 1
    {
      if t >= max then Walk(hist, true)
      else
        var answer := calls.onOpen(hist, t, ds[i]);
        if answer == StopOpening then Walk(hist + [Opened(t, i)], false)
        else
          var inner := Inside(i, t, answer, hist + [Opened(t, i)]);
          if inner.goesOn then Close(i, t, inner.trace) else inner
    }

    function Inside(i: nat, t: int, answer: OpenAnswer, hist: seq<Event>): Walk
      requires Valid() && i < |ds| && I64_MIN < t < max
      decreases |ds| - i, 0
    {
      if answer == WithChildren && i + 1 < |ds| then
        FirstChildMoves(i, t);
        Level(i + 1, FirstChild(i, t), t, hist)
      else Walk(hist, true)
    }

    function Close(i: nat, t: int, hist: seq<Event>): Walk
      requires i < |ds|
    {
      Walk(hist + [Closed(t, i)], calls.onClose(hist, t, ds[i]) == Continue)
    }

    /** A bucket and then its earlier siblings, down to the oldest one allowed. */
    function Level(i: nat, t: int, oldest: int, hist: seq<Event>): Walk
      requires Valid() && i < |ds| && Moves(t) && oldest > I64_MIN
      decreases |ds| - i, 2 + Gap(t, oldest)
    {
      var here := Bucket(i, t, hist);
      if here.goesOn && SatSub(t, ds[i]) >= oldest then Level(i, SatSub(t, ds[i]), oldest, here.trace) else here
    }

    // The walk as a stack of frames, the last one on top.

    predicate Fits(f: Frame) {
      f.level < |ds| && (f.OpenFrame? ==> Moves(f.time) && f.oldest > I64_MIN)
    }

    predicate FramesFit(frames: seq<Frame>) {
      forall k :: 0 <= k < |frames| ==> Fits(frames[k])
    }

    function RunFrame(f: Frame, hist: seq<Event>): Walk
      requires Valid() && Fits(f)
    {
      match f
      case OpenFrame(t, i, oldest) => Level(i, t, oldest, hist)
      case CloseFrame(t, i) => Close(i, t, hist)
    }

    function RunFrames(frames: seq<Frame>, hist: seq<Event>): Walk
      requires Valid() && FramesFit(frames)
    {
      if frames == [] then Walk(hist, true)
      else
        var w := RunFrame(frames[|frames| - 1], hist);
        if w.goesOn then RunFrames(frames[..|frames| - 1], w.trace) else w
    }

    predicate LevelsFit(frames: seq<Frame>) {
      forall k :: 0 <= k < |frames| ==> frames[k].level < |ds|
    }

    /** One turn of the source's loop: the top frame is replaced by what it pushes. */
    function Turn(frames: seq<Frame>, trace: seq<Event>): (r: Pumped)
      requires Valid() && LevelsFit(frames) && frames != []
      ensures r.Running? ==> LevelsFit(r.frames)
    {
      var (f, rest) := (frames[|frames| - 1], frames[..|frames| - 1]);
      match f
      case CloseFrame(t, i) =>
        if calls.onClose(trace, t, ds[i]) == StopClosing then Ended(trace + [Closed(t, i)])
        else Running(rest, trace + [Closed(t, i)])
      case OpenFrame(t, i, oldest) =>
        var sibling := OpenFrame(SatSub(t, ds[i]), i, oldest);
        var later := if sibling.time >= oldest then rest + [sibling] else rest;
        if t >= max then Running(later, trace)
        else
          var answer := calls.onOpen(trace, t, ds[i]);
          var visited := trace + [Opened(t, i)];
          if answer == StopOpening then Ended(visited)
          else if answer == WithChildren && i + 1 < |ds|
          then Running(later + [CloseFrame(t, i)] + [OpenFrame(FirstChild(i, t), i + 1, t)], visited)
          else Running(later + [CloseFrame(t, i)], visited)
    }

    /** The stack after some turns; an empty one stays empty. */
    function After(turns: nat, first: Frame): (r: Pumped)
      requires Valid() && first.level < |ds|
      ensures r.Running? ==> LevelsFit(r.frames)
    {
      if turns == 0 then Running([first], [])
      else
        var before := After(turns - 1, first);
        if before.Running? && before.frames != [] then Turn(before.frames, before.trace) else before
    }

    lemma NoTurns(first: Frame)
      requires Valid() && first.level < |ds|
      ensures After(0, first) == Running([first], [])
    {
    }

    lemma OneMoreTurn(turns: nat, first: Frame, frames: seq<Frame>, trace: seq<Event>)
      requires Valid() && first.level < |ds| && frames != []
      ensures After(turns, first) == Running(frames, trace) ==>
                LevelsFit(frames) && After(turns + 1, first) == Turn(frames, trace)
    {
    }

    lemma CloseTurn(rest: seq<Frame>, trace: seq<Event>, t: int, i: nat)
      requires Valid() && LevelsFit(rest + [CloseFrame(t, i)])
      ensures i < |ds| && Turn(rest + [CloseFrame(t, i)], trace)
           == if calls.onClose(trace, t, ds[i]) == StopClosing then Ended(trace + [Closed(t, i)])
              else Running(rest, trace + [Closed(t, i)])
    {
      var frames := rest + [CloseFrame(t, i)];
      assert frames[..|frames| - 1] == rest && frames[|rest|] == CloseFrame(t, i);
    }

    /** A bound on the turns a frame can take, whatever the callbacks answer. */
    function Turns(f: Frame): nat
      requires Valid() && Fits(f)
    {
      match f case OpenFrame(t, i, oldest) => LevelTurns(i, t, oldest) case CloseFrame(_, _) => 1
    }

    function LevelTurns(i: nat, t: int, oldest: int): (n: nat)
      requires Valid() && i < |ds| && Moves(t) && oldest > I64_MIN
      ensures n >= 2
      decreases |ds| - i, Gap(t, oldest)
    {
      2 + (if t < max && i + 1 < |ds| then
             FirstChildMoves(i, t);
             LevelTurns(i + 1, FirstChild(i, t), t)
           else 0)
      + (if SatSub(t, ds[i]) >= oldest then LevelTurns(i, SatSub(t, ds[i]), oldest) else 0)
    }

    function AllTurns(frames: seq<Frame>): nat
      requires Valid() && FramesFit(frames)
    {
      if frames == [] then 0 else Turns(frames[|frames| - 1]) + AllTurns(frames[..|frames| - 1])
    }

    /** Running what is below the top of the stack once the top is done. */
    function Then(w: Walk, frames: seq<Frame>): Walk
      requires Valid() && FramesFit(frames)
    {
      if w.goesOn then RunFrames(frames, w.trace) else w
    }

    lemma Push(frames: seq<Frame>, f: Frame)
      requires Valid() && FramesFit(frames) && Fits(f)
      ensures FramesFit(frames + [f])
      ensures AllTurns(frames + [f]) == Turns(f) + AllTurns(frames)
      ensures forall hist :: RunFrames(frames + [f], hist) == Then(RunFrame(f, hist), frames)
    {
      assert (frames + [f])[..|frames|] == frames;
    }

    /** The source's loop, from the frame it primes the stack with. */
    method Pump(first: Frame) returns (r: Walk)
      requires Valid() && first.OpenFrame? && Fits(first)
      ensures r == Level(first.level, first.time, first.oldest, [])
      ensures exists n :: After(n, first) == if r.goesOn then Running([], r.trace) else Ended(r.trace)
    {
      hide Level, LevelTurns, Bucket, After, Turn;
      ghost var n := 0;
      assert After(0, first) == Running([first], []) by {
        NoTurns(first);
      }
      var frames := [first];
      var trace: seq<Event> := [];
      Push([], first);
      assert [] + [first] == [first];
      while frames != []
        invariant FramesFit(frames)
        invariant RunFrames(frames, trace) == RunFrame(first, [])
        invariant After(n, first) == Running(frames, trace)
        decreases AllTurns(frames)
      {
        OneMoreTurn(n, first, frames, trace);
        n := n + 1;
        var f := frames[|frames| - 1];
        ghost var was, hist := frames, trace;
        frames := frames[..|frames| - 1];
        Push(frames, f);
        assert was == frames + [f];
        match f {
          case CloseFrame(t, i) =>
            CloseTurn(frames, trace, t, i);
            var answer := calls.onClose(trace, t, ds[i]);
            trace := trace + [Closed(t, i)];
            if answer == StopClosing {
              return Walk(trace, false);
            }
          case OpenFrame(t, i, oldest) =>
            var stopped;
            frames, trace, stopped := OpenTurn(frames, trace, t, i, oldest);
            if stopped {
              return Walk(trace, false);
            }
        }
      }
      r := Walk(trace, true);
    }

    /** One turn on an open frame: push the sibling, open the bucket, push its close and its first child. */
    method OpenTurn(rest: seq<Frame>, hist: seq<Event>, t: int, i: nat, oldest: int)
      returns (frames: seq<Frame>, trace: seq<Event>, stopped: bool)
      requires Valid() && FramesFit(rest) && Fits(OpenFrame(t, i, oldest))
      ensures stopped ==> RunFrames(rest + [OpenFrame(t, i, oldest)], hist) == Walk(trace, false)
      ensures !stopped ==> FramesFit(frames)
                           && RunFrames(frames, trace) == RunFrames(rest + [OpenFrame(t, i, oldest)], hist)
                           && AllTurns(frames) < AllTurns(rest + [OpenFrame(t, i, oldest)])
      ensures LevelsFit(rest + [OpenFrame(t, i, oldest)])
      ensures Turn(rest + [OpenFrame(t, i, oldest)], hist) == if stopped then Ended(trace) else Running(frames, trace)
    {
      hide RunFrames, AllTurns;
      Push(rest, OpenFrame(t, i, oldest));
      assert (rest + [OpenFrame(t, i, oldest)])[..|rest|] == rest;
      ghost var here := Bucket(i, t, hist);
      frames := rest;
      var sibling := OpenFrame(SatSub(t, ds[i]), i, oldest);
      if sibling.time >= oldest {
        Push(frames, sibling);
        frames := frames + [sibling];
      }
      assert Then(Level(i, t, oldest, hist), rest) == Then(here, frames);
      if t >= max {
        return frames, hist, false;
      }
      var answer := calls.onOpen(hist, t, ds[i]);
      trace := hist + [Opened(t, i)];
      if answer == StopOpening {
        return frames, trace, true;
      }
      Push(frames, CloseFrame(t, i));
      ghost var inner, below := Inside(i, t, answer, trace), frames;
      frames := frames + [CloseFrame(t, i)];
      assert Then(here, below) == Then(inner, frames);
      if answer == WithChildren && i + 1 < |ds| {
        FirstChildMoves(i, t);
        Push(frames, OpenFrame(FirstChild(i, t), i + 1, t));
        frames := frames + [OpenFrame(FirstChild(i, t), i + 1, t)];
      }
      stopped := false;
    }
  }

  /** `RecursiveBucketVisitor::visit`: an error when there is no duration to walk. */
  method VisitBuckets(max: i64, min: i64, ds: seq<nat>, calls: Callbacks) returns (r: Result<Walk>)
    requires Visit(ds, max, calls).Valid() && Terminates(min, ds)
    ensures r == if ds == [] then Err else Ok(FullWalk(max, min, ds, calls))
  {
    if ds == [] {
      return Err;
    }
    var v := Visit(ds, max, calls);
    TopMoves(v);
    var w := v.Pump(OpenFrame(RoundDown(max, ds[0]), 0, RoundDown(min, ds[0])));
    r := Ok(w);
  }

  /** The oldest root bucket is not at the very start of i64, where the walk would never pass it. */
  predicate Terminates(min: i64, ds: seq<nat>) {
    ds != [] && ds[0] > 0 ==> RoundDown(min, ds[0]) > I64_MIN
  }

  lemma TopMoves(v: Visit)
    requires v.Valid() && v.ds != []
    ensures v.Moves(RoundDown(v.max, v.ds[0]))
  {
    RoundDownShrinks(v.max, v.ds[0]);
  }

  /** Callbacks that never stop the walk. */
  ghost predicate NeverStop(calls: Callbacks) {
    forall hist, t, d :: calls.onOpen(hist, t, d) != StopOpening && calls.onClose(hist, t, d) != StopClosing
  }

  /** A frame whose oldest time no saturating difference can go below. */
  predicate IsEndless(f: Frame) {
    f.OpenFrame? && f.oldest == I64_MIN
  }

  /** An endless frame, when it is its turn, puts its sibling in its place; otherwise it stays. */
  lemma TurnKeepsEndless(v: Visit, frames: seq<Frame>, trace: seq<Event>, k: nat)
    requires v.Valid() && v.LevelsFit(frames) && k < |frames| && IsEndless(frames[k]) && NeverStop(v.calls)
    ensures var r := v.Turn(frames, trace); r.Running? && k < |r.frames| && IsEndless(r.frames[k])
  {
    hide RoundDown, Visit.FirstChild;
  }

  lemma {:induction false} EndlessForever(v: Visit, turns: nat, first: Frame)
    requires v.Valid() && first.level < |v.ds| && IsEndless(first) && NeverStop(v.calls)
    ensures var r := v.After(turns, first); r.Running? && r.frames != [] && IsEndless(r.frames[0])
  {
    if turns > 0 {
      EndlessForever(v, turns - 1, first);
      var before := v.After(turns - 1, first);
      TurnKeepsEndless(v, before.frames, before.trace, 0);
    }
  }

  /**
   * Only the least i64 itself can be such a start, and only when the root duration divides 2^63.  Unless a
   * callback stops it, the walk then never ends: after any number of turns there are frames on the stack.
   */
  lemma TerminatesExactly(max: i64, min: i64, ds: seq<nat>, calls: Callbacks, turns: nat)
    requires Visit(ds, max, calls).Valid() && ds != [] && NeverStop(calls)
    ensures Terminates(min, ds) <==> !(min == I64_MIN && 0x8000_0000_0000_0000 % ds[0] == 0)
    ensures !Terminates(min, ds) ==>
              var r := Visit(ds, max, calls).After(turns, OpenFrame(RoundDown(max, ds[0]), 0, RoundDown(min, ds[0])));
              r.Running? && r.frames != []
  {
    StartOfTime(min, ds);
    if !Terminates(min, ds) {
      EndlessForever(Visit(ds, max, calls), turns, OpenFrame(RoundDown(max, ds[0]), 0, RoundDown(min, ds[0])));
    }
  }

  lemma StartOfTime(min: i64, ds: seq<nat>)
    requires ds != [] && ds[0] > 0
    ensures Terminates(min, ds) <==> !(min == I64_MIN && 0x8000_0000_0000_0000 % ds[0] == 0)
    ensures !Terminates(min, ds) ==> RoundDown(min, ds[0]) == I64_MIN
  {
    RoundDownShrinks(min, ds[0]);
    RoundDownIs(min, ds[0]);
  }

  function FullWalk(max: i64, min: i64, ds: seq<nat>, calls: Callbacks): Walk
    requires Visit(ds, max, calls).Valid() && ds != [] && Terminates(min, ds)
  {
    TopMoves(Visit(ds, max, calls));
    Visit(ds, max, calls).Level(0, RoundDown(max, ds[0]), RoundDown(min, ds[0]), [])
  }

  // ---------------------------------------------------------------------------------------------
  // A full descent tiles time

  const ALWAYS := Callbacks((h: seq<Event>, t: int, d: nat) => WithChildren, (h: seq<Event>, t: int, d: nat) => Continue)

  /** The buckets of the finest level that were opened, in the order of the walk. */
  function Leaves(trace: seq<Event>, level: nat): seq<int> {
    if trace == [] then []
    else
      var e := trace[|trace| - 1];
      Leaves(trace[..|trace| - 1], level) + (if e.Opened? && e.level == level then [e.time] else [])
  }

  /** The multiples of d from lo up to hi, latest first. */
  function Grid(d: nat, lo: int, hi: int): seq<int>
    requires d > 0
    decreases Gap(hi, lo)
  {
    if hi <= lo then [] else [hi - d] + Grid(d, lo, hi - d)
  }

  lemma {:induction false} GridSplit(d: nat, lo: int, mid: int, hi: int)
    requires d > 0 && mid % d == 0 && hi % d == 0 && lo <= mid <= hi
    ensures Grid(d, lo, hi) == Grid(d, mid, hi) + Grid(d, lo, mid)
    decreases hi - mid
  {
    if mid < hi {
      StepDown(mid, hi, d);
      GridSplit(d, lo, mid, hi - d);
    }
  }

  /** The grid holds each multiple in its range exactly once, and nothing else. */
  lemma {:induction false} GridIsExact(d: nat, lo: int, hi: int)
    requires d > 0 && lo % d == 0 && hi % d == 0
    ensures forall t :: t in Grid(d, lo, hi) <==> lo <= t < hi && t % d == 0
    ensures forall i, j :: 0 <= i < j < |Grid(d, lo, hi)| ==> Grid(d, lo, hi)[i] > Grid(d, lo, hi)[j]
    decreases Gap(hi, lo)
  {
    if lo < hi {
      StepDown(lo, hi, d);
      GridIsExact(d, lo, hi - d);
      forall t | lo <= t < hi && t % d == 0 ensures t <= hi - d {
        StepDown(t, hi, d);
      }
      var rest := Grid(d, lo, hi - d);
      forall j | 0 <= j < |rest| ensures rest[j] < hi - d {
        assert rest[j] in rest;
      }
    }
  }

  /** The first multiple of d not before t. */
  function RoundUp(t: int, d: nat): (r: int)
    requires d > 0
    ensures r % d == 0 && t <= r < t + d
  {
    MultipleHasNoRemainder(d, (t + d - 1) / d);
    d * ((t + d - 1) / d)
  }

  function Min(a: int, b: int): int {
    if a < b then a else b
  }

  lemma RoundUpIsLeast(t: int, m: int, d: nat)
    requires d > 0 && m % d == 0 && t <= m
    ensures RoundUp(t, d) <= m
  {
    if m < RoundUp(t, d) {
      StepDown(m, RoundUp(t, d), d);
    }
  }

  lemma {:induction false} EveryLevelIsCoarser(ds: seq<nat>, i: nat)
    requires Nested(ds) && i < |ds|
    ensures ds[i] % ds[|ds| - 1] == 0
    decreases |ds| - i
  {
    if i + 1 < |ds| {
      EveryLevelIsCoarser(ds, i + 1);
      CoarseIsFine(ds[i], ds[i + 1], ds[|ds| - 1]);
    }
  }

  lemma LeavesOfOne(hist: seq<Event>, e: Event, level: nat)
    ensures Leaves(hist + [e], level)
         == Leaves(hist, level) + (if e.Opened? && e.level == level then [e.time] else [])
  {
    assert (hist + [e])[..|hist|] == hist;
  }

  // ---------------------------------------------------------------------------------------------
  // Ends of the walk near which saturating sums do no harm

  /** The walk's end starts a root bucket, or the second level's bucket around it ends within i64. */
  predicate Tame(max: i64, ds: seq<nat>) {
    |ds| < 2 || ds[0] == 0 || ds[1] == 0 || max % ds[0] == 0 || RoundDown(max, ds[1]) + ds[1] <= I64_MAX
  }

  ghost predicate OnLadder(v: Visit) {
    v.Valid() && v.ds != [] && Nested(v.ds) && Tame(v.max, v.ds)
  }

  lemma {:induction false} MaxDividesDown(v: Visit, i: nat)
    requires Nested(v.ds) && i < |v.ds| && v.max % v.ds[0] == 0
    ensures v.max % v.ds[i] == 0
  {
    if i > 0 {
      MaxDividesDown(v, i - 1);
      CoarseIsFine(v.max, v.ds[i - 1], v.ds[i]);
    }
  }

  /** The bucket around the walk's end does not end later on a finer level. */
  lemma {:induction false} FinerEndsEarlier(v: Visit, i: nat)
    requires v.Valid() && Nested(v.ds) && 0 < i < |v.ds| && RoundDown(v.max, v.ds[1]) + v.ds[1] <= I64_MAX
    ensures RoundDown(v.max, v.ds[i]) + v.ds[i] <= I64_MAX
  {
    hide RoundDown;
    var d := v.ds[i];
    RoundedTime(v.max, d);
    if i > 1 && v.max >= 0 {
      var coarse := v.ds[i - 1];
      FinerEndsEarlier(v, i - 1);
      RoundedTime(v.max, coarse);
      CoarseIsFine(RoundDown(v.max, coarse), coarse, d);
      SumIsMultiple(RoundDown(v.max, coarse), coarse, d);
      StepDown(RoundDown(v.max, d), RoundDown(v.max, coarse) + coarse, d);
    }
  }

  /** The children of a bucket start on their grid, and the last one ends with it or after the walk's end. */
  ghost predicate ChildrenFit(v: Visit, i: nat, t: int) {
    v.Valid() && i + 1 < |v.ds| && v.ds[i + 1] > 0 &&
    var first, d := v.FirstChild(i, t), v.ds[i + 1];
    && t <= first && first + d <= t + v.ds[i] && first % d == 0 && t % d == 0
    && (first + d == t + v.ds[i] || v.max <= first + d)
  }

  /** A ladder on which the children fit of every bucket that is opened and ends by a given time. */
  ghost predicate Settled(v: Visit, end: int) {
    && v.Valid() && v.ds != [] && Nested(v.ds)
    && forall i: nat, t ::
         i + 1 < |v.ds| && t % v.ds[i] == 0 && I64_MIN < t < v.max && t + v.ds[i] <= end ==> ChildrenFit(v, i, t)
  }

  lemma TameLaddersSettle(v: Visit, end: int)
    requires OnLadder(v)
    ensures Settled(v, end)
  {
    hide Tame, Nested, ChildrenFit;
    forall i: nat, t | i + 1 < |v.ds| && t % v.ds[i] == 0 && I64_MIN < t < v.max && t + v.ds[i] <= end
      ensures ChildrenFit(v, i, t)
    {
      Children(v, i, t);
    }
  }

  lemma Children(v: Visit, i: nat, t: int)
    requires OnLadder(v) && i + 1 < |v.ds| && t % v.ds[i] == 0 && I64_MIN < t < v.max
    ensures ChildrenFit(v, i, t)
  {
    hide RoundDown;
    var d := v.ds[i + 1];
    RoundedTime(v.max, d);
    CoarseIsFine(t, v.ds[i], d);
    RoundedIsLatest(v.max, t, d);
    SumIsMultiple(t, v.ds[i], d);
    StepDown(t, t + v.ds[i], d);
    if t + v.ds[i] > I64_MAX {
      if v.max % v.ds[0] == 0 {
        MaxDividesDown(v, i);
        StepDown(t, v.max, v.ds[i]);
      } else {
        FinerEndsEarlier(v, i + 1);
      }
    }
  }

  // ---------------------------------------------------------------------------------------------
  // What a full descent opens

  /** A ladder walked with callbacks that never decline. */
  ghost predicate Full(v: Visit, end: int) {
    Settled(v, end) && v.calls == ALWAYS
  }

  function Finest(v: Visit): nat
    requires v.ds != []
  {
    v.ds[|v.ds| - 1]
  }

  /** Opening a bucket opens the finest buckets inside it that start before the end of the walk. */
  lemma {:induction false} FullBucket(v: Visit, end: int, i: nat, t: int, hist: seq<Event>)
    requires Full(v, end) && i < |v.ds| && t % v.ds[i] == 0 && v.Moves(t) && t + v.ds[i] <= end
    ensures v.Bucket(i, t, hist).goesOn
    ensures Leaves(v.Bucket(i, t, hist).trace, |v.ds| - 1)
         == Leaves(hist, |v.ds| - 1) + Grid(Finest(v), t, Min(t + v.ds[i], RoundUp(v.max, Finest(v))))
    decreases |v.ds| - i, 1
  {
    hide RoundUp, Visit.Level, Grid, Leaves;
    var f, leaf := Finest(v), |v.ds| - 1;
    EveryLevelIsCoarser(v.ds, i);
    CoarseIsFine(t, v.ds[i], f);
    if t >= v.max {
      RoundUpIsLeast(v.max, t, f);
      GridOfNothing(f, t, Min(t + v.ds[i], RoundUp(v.max, f)));
    } else {
      var h := hist + [Opened(t, i)];
      LeavesOfOne(hist, Opened(t, i), leaf);
      if i < leaf {
        FullInside(v, end, i, t, h);
      } else {
        StepDown(t, RoundUp(v.max, f), f);
        GridOfOne(f, t);
      }
      LeavesOfOne(v.Inside(i, t, WithChildren, h).trace, Closed(t, i), leaf);
    }
  }

  lemma GridOfNothing(d: nat, lo: int, hi: int)
    requires d > 0 && hi <= lo
    ensures Grid(d, lo, hi) == []
  {
  }

  lemma GridOfOne(d: nat, t: int)
    requires d > 0
    ensures Grid(d, t, t + d) == [t]
  {
    assert Grid(d, t, t + d) == [t] + Grid(d, t, t);
  }

  lemma {:induction false} FullInside(v: Visit, end: int, i: nat, t: int, hist: seq<Event>)
    requires Full(v, end) && i + 1 < |v.ds| && t % v.ds[i] == 0 && I64_MIN < t < v.max && t + v.ds[i] <= end
    ensures v.Inside(i, t, WithChildren, hist).goesOn
    ensures Leaves(v.Inside(i, t, WithChildren, hist).trace, |v.ds| - 1)
         == Leaves(hist, |v.ds| - 1) + Grid(Finest(v), t, Min(t + v.ds[i], RoundUp(v.max, Finest(v))))
    decreases |v.ds| - i, 0
  {
    assert ChildrenFit(v, i, t);
    ChildrenEnd(v, end, i, t);
    v.FirstChildMoves(i, t);
    hide RoundUp, RoundDown, Visit.Level, Visit.FirstChild, Grid, Leaves, Nested;
    FullLevel(v, end, i + 1, v.FirstChild(i, t), t, hist);
  }

  /** The children of a bucket reach as far as the bucket does before the end of the walk. */
  lemma ChildrenEnd(v: Visit, end: int, i: nat, t: int)
    requires Settled(v, end) && i + 1 < |v.ds| && t % v.ds[i] == 0 && I64_MIN < t < v.max && t + v.ds[i] <= end
    ensures var m := RoundUp(v.max, Finest(v)); Min(v.FirstChild(i, t) + v.ds[i + 1], m) == Min(t + v.ds[i], m)
  {
    assert ChildrenFit(v, i, t);
    hide RoundUp, RoundDown, Visit.FirstChild;
    var f, d, first := Finest(v), v.ds[i + 1], v.FirstChild(i, t);
    EveryLevelIsCoarser(v.ds, i + 1);
    hide Nested;
    if v.max <= first + d {
      SumIsMultiple(first, d, d);
      CoarseIsFine(first + d, d, f);
      RoundUpIsLeast(v.max, first + d, f);
    }
  }

  lemma GridGlue(f: nat, lo: int, mid: int, hi: int, m: int)
    requires f > 0 && mid % f == 0 && hi % f == 0 && m % f == 0 && lo <= mid <= hi
    ensures Grid(f, mid, Min(hi, m)) + Grid(f, lo, Min(mid, m)) == Grid(f, lo, Min(hi, m))
  {
    if mid < m {
      GridSplit(f, lo, mid, Min(hi, m));
    } else {
      assert Grid(f, mid, Min(hi, m)) == [];
    }
  }

  /** A row of siblings opens all the finest buckets from the oldest one to the end of the latest one. */
  lemma {:induction false} FullLevel(v: Visit, end: int, i: nat, t: int, oldest: int, hist: seq<Event>)
    requires Full(v, end) && i < |v.ds| && t % v.ds[i] == 0 && oldest % v.ds[i] == 0 && I64_MIN < oldest <= t
    requires t + v.ds[i] <= end
    ensures v.Level(i, t, oldest, hist).goesOn
    ensures Leaves(v.Level(i, t, oldest, hist).trace, |v.ds| - 1)
         == Leaves(hist, |v.ds| - 1) + Grid(Finest(v), oldest, Min(t + v.ds[i], RoundUp(v.max, Finest(v))))
    decreases |v.ds| - i, 2 + t - oldest
  {
    hide RoundUp, Visit.Bucket, Grid, Leaves;
    var f, d := Finest(v), v.ds[i];
    var m := RoundUp(v.max, f);
    var here := v.Bucket(i, t, hist);
    FullBucket(v, end, i, t, hist);
    EveryLevelIsCoarser(v.ds, i);
    CoarseIsFine(t, d, f);
    if oldest < t {
      StepDown(oldest, t, d);
      FullLevel(v, end, i, t - d, oldest, here.trace);
      SumIsMultiple(t, d, f);
      GridGlue(f, oldest, t, t + d, m);
    }
  }

  /** The oldest root bucket the walk tries to open; when min is after max, it is the one it starts with. */
  function RootStart(max: int, min: int, d: nat): int
    requires d > 0
  {
    RoundDown(Min(min, max), d)
  }

  /** The root buckets that hold the two ends of the range. */
  lemma Roots(max: int, min: int, d: nat, f: nat)
    requires d > 0 && f > 0 && d % f == 0
    ensures RoundDown(max, d) % d == 0 && RootStart(max, min, d) % d == 0 && RootStart(max, min, d) % f == 0
    ensures RootStart(max, min, d) == Min(RoundDown(min, d), RoundDown(max, d))
    ensures RoundUp(max, f) <= RoundDown(max, d) + d
  {
    hide RoundUp, RoundDown;
    var top, root := RoundDown(max, d), RoundDown(Min(min, max), d);
    RoundedTime(max, d);
    RoundedTime(Min(min, max), d);
    if min <= max {
      RoundingIsMonotone(min, max, d);
    } else {
      RoundingIsMonotone(max, min, d);
    }
    CoarseIsFine(root, d, f);
    SumIsMultiple(top, d, d);
    CoarseIsFine(top + d, d, f);
    RoundUpIsLeast(max, top + d, f);
  }

  lemma FullWalkTiles(v: Visit, min: i64)
    requires v.ds != [] && v.ds[0] > 0 && Full(v, RoundDown(v.max, v.ds[0]) + v.ds[0]) && Terminates(min, v.ds)
    ensures var w := FullWalk(v.max, min, v.ds, v.calls);
            w.goesOn
            && Leaves(w.trace, |v.ds| - 1) == Grid(Finest(v), RootStart(v.max, min, v.ds[0]), RoundUp(v.max, Finest(v)))
  {
    EveryLevelIsCoarser(v.ds, 0);
    TopMoves(v);
    hide RoundUp, Visit.Bucket, RoundDown, Grid;
    var d, f := v.ds[0], Finest(v);
    var top, oldest := RoundDown(v.max, d), RoundDown(min, d);
    Roots(v.max, min, d, f);
    assert Leaves([], |v.ds| - 1) == [];
    if oldest <= top {
      RoundedTime(min, d);
      FullLevel(v, top + d, 0, top, oldest, []);
    } else {
      FullBucket(v, top + d, 0, top, []);
    }
  }

  /**
   * A walk opens each finest bucket from the one that starts the oldest root bucket up to the end of the
   * range, latest first, exactly once, and nothing else on that level.
   */
  ghost predicate Tiles(v: Visit, min: i64)
    requires v.Valid() && v.ds != [] && Terminates(min, v.ds)
  {
    var w := FullWalk(v.max, min, v.ds, v.calls);
    var leaves := Leaves(w.trace, |v.ds| - 1);
    && w.goesOn
    && (forall t :: t in leaves <==> RootStart(v.max, min, v.ds[0]) <= t < v.max && t % Finest(v) == 0)
    && (forall j, k :: 0 <= j < k < |leaves| ==> leaves[j] > leaves[k])
  }

  /** On every nested ladder with a tame end, a walk whose callbacks always go on tiles its range. */
  lemma TilesExactly(v: Visit, min: i64)
    requires OnLadder(v) && v.calls == ALWAYS && Terminates(min, v.ds)
    ensures Tiles(v, min)
  {
    TameLaddersSettle(v, RoundDown(v.max, v.ds[0]) + v.ds[0]);
    EveryLevelIsCoarser(v.ds, 0);
    hide RoundUp, RootStart, FullWalk, Grid, Tame, Nested;
    FullWalkTiles(v, min);
    var f := Finest(v);
    Roots(v.max, min, v.ds[0], f);
    var root, end := RootStart(v.max, min, v.ds[0]), RoundUp(v.max, f);
    GridIsExact(f, root, end);
    forall t | t % f == 0 && t < end ensures t < v.max {
      StepDown(t, end, f);
    }
  }

  lemma LadderShrinks(b: BucketType)
    ensures forall i :: 0 <= i < |DurationsFor(b)| - 1 ==> DurationsFor(b)[i + 1] <= DurationsFor(b)[i]
    ensures |DurationsFor(b)| >= 2 && forall i :: 0 <= i < |DurationsFor(b)| ==> DurationsFor(b)[i] <= I64_MAX
    ensures 0x8000_0000_0000_0000 % DurationsFor(b)[0] != 0 && I64_MAX % DurationsFor(b)[1] != 0
  {
  }

  lemma LadderIsWalkable(b: BucketType, max: i64, min: i64, calls: Callbacks)
    ensures var ds := DurationsFor(b); Visit(ds, max, calls).Valid() && Terminates(min, ds) && ds != []
  {
    LadderIsNested(b);
    LadderShrinks(b);
    hide DurationsFor;
    StartOfTime(min, DurationsFor(b));
  }

  // ---------------------------------------------------------------------------------------------
  // Whatever the callbacks answer, no bucket is opened twice

  /** The opened buckets of a stretch of the walk lie in a window and on their grids, on each level latest first. */
  ghost predicate Clean(v: Visit, i: nat, lo: int, hi: int, part: seq<Event>) {
    && (forall k :: 0 <= k < |part| && part[k].Opened? ==> InWindow(v, i, lo, hi, part[k]))
    && (forall j, k :: 0 <= j < k < |part| && part[j].Opened? && part[k].Opened? && part[j].level == part[k].level ==>
          part[j].time > part[k].time)
  }

  ghost predicate InWindow(v: Visit, i: nat, lo: int, hi: int, e: Event) {
    i <= e.level < |v.ds| && lo <= e.time < hi && e.time < v.max && v.ds[e.level] > 0 && e.time % v.ds[e.level] == 0
  }

  /** Two stretches may follow each other when the window of the second is before that of the first. */
  lemma CleanConcat(v: Visit, i: nat, lo: int, mid: int, hi: int, later: seq<Event>, earlier: seq<Event>)
    requires Clean(v, i, mid, hi, later) && Clean(v, i, lo, mid, earlier) && lo <= mid <= hi
    ensures Clean(v, i, lo, hi, later + earlier)
  {
  }

  lemma BucketIsClean(v: Visit, end: int, i: nat, t: int, hist: seq<Event>) returns (part: seq<Event>)
    requires Settled(v, end) && i < |v.ds| && t % v.ds[i] == 0 && v.Moves(t) && t + v.ds[i] <= end
    ensures v.Bucket(i, t, hist).trace == hist + part
    ensures Clean(v, i, t, t + v.ds[i], part)
    decreases |v.ds| - i, 1
  {
    hide Visit.Inside;
    part := [];
    if t < v.max {
      var answer := v.calls.onOpen(hist, t, v.ds[i]);
      var h := hist + [Opened(t, i)];
      part := [Opened(t, i)];
      if answer != StopOpening {
        var inner := InsideIsClean(v, end, i, t, answer, h);
        part := part + inner;
        assert h + inner == hist + part;
        if v.Inside(i, t, answer, h).goesOn {
          assert hist + part + [Closed(t, i)] == hist + (part + [Closed(t, i)]);
          part := part + [Closed(t, i)];
        }
      }
    }
  }

  lemma InsideIsClean(v: Visit, end: int, i: nat, t: int, answer: OpenAnswer, hist: seq<Event>) returns (part: seq<Event>)
    requires Settled(v, end) && i < |v.ds| && t % v.ds[i] == 0 && I64_MIN < t < v.max && t + v.ds[i] <= end
    ensures v.Inside(i, t, answer, hist).trace == hist + part
    ensures Clean(v, i + 1, t, t + v.ds[i], part)
    decreases |v.ds| - i, 0
  {
    part := [];
    if answer == WithChildren && i + 1 < |v.ds| {
      assert ChildrenFit(v, i, t);
      part := LevelIsClean(v, end, i + 1, v.FirstChild(i, t), t, hist);
    }
  }

  lemma LevelIsClean(v: Visit, end: int, i: nat, t: int, oldest: int, hist: seq<Event>) returns (part: seq<Event>)
    requires Settled(v, end) && i < |v.ds| && t % v.ds[i] == 0 && oldest % v.ds[i] == 0 && I64_MIN < oldest <= t
    requires t + v.ds[i] <= end
    ensures v.Level(i, t, oldest, hist).trace == hist + part
    ensures Clean(v, i, oldest, t + v.ds[i], part)
    decreases |v.ds| - i, 2 + t - oldest
  {
    hide Visit.Bucket;
    part := BucketIsClean(v, end, i, t, hist);
    var here := v.Bucket(i, t, hist);
    if here.goesOn && oldest < t {
      StepDown(oldest, t, v.ds[i]);
      var earlier := LevelIsClean(v, end, i, t - v.ds[i], oldest, here.trace);
      CleanConcat(v, i, oldest, t, t + v.ds[i], part, earlier);
      assert (hist + part) + earlier == hist + (part + earlier);
      part := part + earlier;
    }
  }

  /** The root level, also when the oldest bucket allowed is after the one the walk starts with. */
  lemma RootIsClean(v: Visit, t: int, oldest: int) returns (part: seq<Event>)
    requires v.ds != [] && Settled(v, t + v.ds[0])
    requires t % v.ds[0] == 0 && oldest % v.ds[0] == 0 && I64_MIN < oldest && v.Moves(t)
    ensures v.Level(0, t, oldest, []).trace == part
    ensures Clean(v, 0, Min(oldest, t), t + v.ds[0], part)
  {
    hide Visit.Bucket, Nested, Clean;
    if oldest <= t {
      part := LevelIsClean(v, t + v.ds[0], 0, t, oldest, []);
    } else {
      part := BucketIsClean(v, t + v.ds[0], 0, t, []);
    }
    assert [] + part == part;
  }

  lemma WalkIsClean(v: Visit, min: i64)
    requires OnLadder(v) && Terminates(min, v.ds)
    ensures var trace := FullWalk(v.max, min, v.ds, v.calls).trace;
            exists hi :: Clean(v, 0, RootStart(v.max, min, v.ds[0]), hi, trace)
  {
    TameLaddersSettle(v, RoundDown(v.max, v.ds[0]) + v.ds[0]);
    hide RoundDown, Visit.Level, Tame, Clean, RootStart;
    var d := v.ds[0];
    EveryLevelIsCoarser(v.ds, 0);
    TopMoves(v);
    Roots(v.max, min, d, v.ds[|v.ds| - 1]);
    RoundedTime(min, d);
    var part := RootIsClean(v, RoundDown(v.max, d), RoundDown(min, d));
  }

  /** For all callbacks: every opened bucket is inside the range and on its grid; on each level the latest come first, none twice. */
  lemma EachBucketOpensOnce(max: i64, min: i64, b: BucketType, calls: Callbacks)
    requires Tame(max, DurationsFor(b))
    ensures var ds := DurationsFor(b);
            var v := Visit(ds, max, calls);
            && v.Valid() && Terminates(min, ds)
            && var trace := FullWalk(max, min, ds, calls).trace;
            && (forall k :: 0 <= k < |trace| && trace[k].Opened? ==>
                  InWindow(v, 0, RootStart(max, min, ds[0]), max, trace[k]))
            && (forall j, k :: 0 <= j < k < |trace| && trace[j].Opened? && trace[k].Opened? && trace[j].level == trace[k].level ==>
                  trace[j].time > trace[k].time)
  {
    LadderIsNested(b);
    LadderIsWalkable(b, max, min, calls);
    hide DurationsFor;
    WalkIsClean(Visit(DurationsFor(b), max, calls), min);
  }
}
