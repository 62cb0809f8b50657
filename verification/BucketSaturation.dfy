/** The bucket walk near the end of i64, where its saturating sums move buckets off their grids. */
module BucketSaturation {
  import opened Arith
  import opened Bytes
  import opened Buckets
  import opened BucketVisitor

  lemma BucketExtends(v: Visit, i: nat, t: int, hist: seq<Event>)
    requires v.Valid() && i < |v.ds| && v.Moves(t)
    ensures hist <= v.Bucket(i, t, hist).trace
    ensures t < v.max ==> hist + [Opened(t, i)] <= v.Bucket(i, t, hist).trace
    decreases |v.ds| - i, 1
  {
    if t < v.max {
      var answer := v.calls.onOpen(hist, t, v.ds[i]);
      if answer == WithChildren && i + 1 < |v.ds| {
        v.FirstChildMoves(i, t);
        LevelExtends(v, i + 1, v.FirstChild(i, t), t, hist + [Opened(t, i)]);
      }
    }
  }

  lemma LevelExtends(v: Visit, i: nat, t: int, oldest: int, hist: seq<Event>)
    requires v.Valid() && i < |v.ds| && v.Moves(t) && oldest > I64_MIN
    ensures hist <= v.Level(i, t, oldest, hist).trace
    ensures t < v.max ==> hist + [Opened(t, i)] <= v.Level(i, t, oldest, hist).trace
    decreases |v.ds| - i, 2 + Gap(t, oldest)
  {
    hide Visit.Bucket;
    BucketExtends(v, i, t, hist);
    var here := v.Bucket(i, t, hist);
    if here.goesOn && SatSub(t, v.ds[i]) >= oldest {
      LevelExtends(v, i, SatSub(t, v.ds[i]), oldest, here.trace);
    }
  }

  /** The first child of the first bucket starts one duration before the end of i64. */
  lemma SaturatedChild(v: Visit)
    requires v.Valid() && Nested(v.ds) && v.ds != [] && !Tame(v.max, v.ds)
    ensures var top := RoundDown(v.max, v.ds[0]);
            I64_MIN < top < v.max && v.FirstChild(0, top) == I64_MAX - v.ds[1] < v.max
  {
    hide RoundDown;
    var c, d, top := v.ds[0], v.ds[1], RoundDown(v.max, v.ds[0]);
    RoundedTime(v.max, c);
    RoundedTime(v.max, d);
    CoarseIsFine(top, c, d);
    SumIsMultiple(top, c, d);
    StepDown(RoundDown(v.max, d), top + c, d);
  }

  lemma SaturationOpens(v: Visit, min: i64)
    requires v.Valid() && Nested(v.ds) && v.ds != [] && !Tame(v.max, v.ds) && Terminates(min, v.ds) && v.calls == ALWAYS
    ensures Opened(I64_MAX - v.ds[1], 1) in FullWalk(v.max, min, v.ds, v.calls).trace
  {
    SaturatedChild(v);
    assert |v.ds| >= 2;
    hide RoundDown, Tame, Nested, Visit.FirstChild;
    var top := RoundDown(v.max, v.ds[0]);
    var hist, child := [Opened(top, 0)], Opened(I64_MAX - v.ds[1], 1);
    assert [] + [Opened(top, 0)] == hist;
    LevelExtends(v, 1, child.time, top, hist);
    var inner := v.Inside(0, top, WithChildren, hist);
    assert (hist + [child])[1] == child;
    assert child in inner.trace;
    var here := v.Bucket(0, top, []);
    assert child in here.trace;
    var oldest := RoundDown(min, v.ds[0]);
    if here.goesOn && SatSub(top, v.ds[0]) >= oldest {
      LevelExtends(v, 0, SatSub(top, v.ds[0]), oldest, here.trace);
    }
  }

  /** For every range and ladder, a walk that always goes on stays on the grids exactly when its end is tame. */
  lemma OnGridExactly(max: i64, min: i64, b: BucketType)
    ensures var ds := DurationsFor(b);
            && Visit(ds, max, ALWAYS).Valid() && Terminates(min, ds) && Nested(ds)
            && var trace := FullWalk(max, min, ds, ALWAYS).trace;
            Tame(max, ds) <==>
              forall k :: 0 <= k < |trace| && trace[k].Opened? ==> trace[k].level < |ds| && trace[k].time % ds[trace[k].level] == 0
  {
    LadderIsNested(b);
    LadderIsWalkable(b, max, min, ALWAYS);
    LadderShrinks(b);
    hide DurationsFor;
    var ds := DurationsFor(b);
    if Tame(max, ds) {
      EachBucketOpensOnce(max, min, b, ALWAYS);
    } else {
      hide FullWalk, Tame;
      SaturationOpens(Visit(ds, max, ALWAYS), min);
      if (I64_MAX - ds[1]) % ds[1] == 0 {
        SumIsMultiple(I64_MAX - ds[1], ds[1], ds[1]);
      }
    }
  }

  // ---------------------------------------------------------------------------------------------
  // Where the walk leaves its grids, it does not tile its range either

  lemma {:induction false} LeavesAreOpened(trace: seq<Event>, level: nat, t: int)
    ensures t in Leaves(trace, level) <==> Opened(t, level) in trace
  {
    if trace != [] {
      var n := |trace| - 1;
      LeavesAreOpened(trace[..n], level, t);
      assert trace == trace[..n] + [trace[n]];
    }
  }

  lemma {:induction false} LeavesOfPrefix(a: seq<Event>, b: seq<Event>, level: nat)
    requires a <= b
    ensures Leaves(a, level) <= Leaves(b, level)
  {
    if |a| < |b| {
      LeavesOfPrefix(a, b[..|b| - 1], level);
    } else {
      assert a == b;
    }
  }

  lemma BucketGoesOn(v: Visit, i: nat, t: int, hist: seq<Event>)
    requires v.Valid() && i < |v.ds| && v.Moves(t) && v.calls == ALWAYS
    ensures v.Bucket(i, t, hist).goesOn
    decreases |v.ds| - i, 1
  {
    if t < v.max && i + 1 < |v.ds| {
      v.FirstChildMoves(i, t);
      LevelGoesOn(v, i + 1, v.FirstChild(i, t), t, hist + [Opened(t, i)]);
    }
  }

  lemma LevelGoesOn(v: Visit, i: nat, t: int, oldest: int, hist: seq<Event>)
    requires v.Valid() && i < |v.ds| && v.Moves(t) && oldest > I64_MIN && v.calls == ALWAYS
    ensures v.Level(i, t, oldest, hist).goesOn
    decreases |v.ds| - i, 2 + Gap(t, oldest)
  {
    hide Visit.Bucket;
    BucketGoesOn(v, i, t, hist);
    if SatSub(t, v.ds[i]) >= oldest {
      LevelGoesOn(v, i, SatSub(t, v.ds[i]), oldest, v.Bucket(i, t, hist).trace);
    }
  }

  /** What a walk adds to a trace lies strictly between two times. */
  ghost predicate Between(trace: seq<Event>, n: nat, lo: int, hi: int) {
    forall k :: n <= k < |trace| ==> lo < trace[k].time < hi
  }

  /** No level below this one can start its children at or before a time. */
  ghost predicate StartsAfter(v: Visit, i: nat, lo: int)
    requires v.Valid()
  {
    forall k :: i < k < |v.ds| ==> lo < RoundDown(v.max, v.ds[k]) && lo < I64_MAX - v.ds[k]
  }

  lemma ChildBetween(v: Visit, i: nat, t: int, lo: int)
    requires v.Valid() && StartsAfter(v, i, lo) && i + 1 < |v.ds| && I64_MIN <= lo < t
    ensures var first := v.FirstChild(i, t); lo < first && first + v.ds[i + 1] <= t + v.ds[i]
  {
    hide RoundDown;
    assert lo < RoundDown(v.max, v.ds[i + 1]) && lo < I64_MAX - v.ds[i + 1];
  }

  lemma BucketBetween(v: Visit, i: nat, t: int, hist: seq<Event>, lo: int, hi: int)
    requires v.Valid() && i < |v.ds| && StartsAfter(v, i, lo) && I64_MIN <= lo < t && t + v.ds[i] <= hi
    ensures Between(v.Bucket(i, t, hist).trace, |hist|, lo, hi)
    decreases |v.ds| - i, 1
  {
    hide StartsAfter, RoundDown, Visit.FirstChild;
    if t < v.max && i + 1 < |v.ds| && v.calls.onOpen(hist, t, v.ds[i]) == WithChildren {
      assert StartsAfter(v, i + 1, lo) by {
        NextStartsAfter(v, i, lo);
      }
      ChildBetween(v, i, t, lo);
      v.FirstChildMoves(i, t);
      LevelBetween(v, i + 1, v.FirstChild(i, t), t, hist + [Opened(t, i)], lo, hi);
      LevelExtends(v, i + 1, v.FirstChild(i, t), t, hist + [Opened(t, i)]);
    }
  }

  lemma NextStartsAfter(v: Visit, i: nat, lo: int)
    requires v.Valid() && StartsAfter(v, i, lo)
    ensures StartsAfter(v, i + 1, lo)
  {
  }

  lemma LevelBetween(v: Visit, i: nat, t: int, oldest: int, hist: seq<Event>, lo: int, hi: int)
    requires v.Valid() && i < |v.ds| && StartsAfter(v, i, lo) && I64_MIN <= lo < t && lo < oldest
    requires t + v.ds[i] <= hi
    ensures Between(v.Level(i, t, oldest, hist).trace, |hist|, lo, hi)
    decreases |v.ds| - i, 2 + Gap(t, oldest)
  {
    hide Visit.Bucket, StartsAfter;
    BucketBetween(v, i, t, hist, lo, hi);
    BucketExtends(v, i, t, hist);
    var here := v.Bucket(i, t, hist);
    if here.goesOn && SatSub(t, v.ds[i]) >= oldest {
      LevelBetween(v, i, SatSub(t, v.ds[i]), oldest, here.trace, lo, hi);
      LevelExtends(v, i, SatSub(t, v.ds[i]), oldest, here.trace);
    }
  }

  // The root bucket that holds the end of an untame walk.

  /** A nested ladder, walked without declining, whose end is not tame. */
  ghost predicate Untame(v: Visit) {
    v.Valid() && v.ds != [] && Nested(v.ds) && !Tame(v.max, v.ds) && v.calls == ALWAYS
  }

  function Top(v: Visit): int
    requires v.Valid() && v.ds != []
  {
    RoundDown(v.max, v.ds[0])
  }

  lemma TopFacts(v: Visit)
    requires Untame(v)
    ensures |v.ds| >= 2 && 0 <= Top(v) < v.max && v.max - v.ds[0] < Top(v) && I64_MAX < Top(v) + v.ds[0]
    ensures forall k :: 0 <= k < |v.ds| ==> Top(v) % v.ds[k] == 0 && Top(v) <= RoundDown(v.max, v.ds[k])
  {
    hide RoundDown;
    var c, d := v.ds[0], v.ds[1];
    RoundedTime(v.max, c);
    RoundedTime(v.max, d);
    CoarseIsFine(Top(v), c, d);
    SumIsMultiple(Top(v), c, d);
    StepDown(RoundDown(v.max, d), Top(v) + c, d);
    forall k | 0 <= k < |v.ds| ensures Top(v) % v.ds[k] == 0 && Top(v) <= RoundDown(v.max, v.ds[k]) {
      LevelDividesRoot(v.ds, k);
      CoarseIsFine(Top(v), c, v.ds[k]);
      RoundedIsLatest(v.max, Top(v), v.ds[k]);
    }
  }

  lemma {:induction false} LevelDividesRoot(ds: seq<nat>, k: nat)
    requires Nested(ds) && k < |ds|
    ensures ds[0] % ds[k] == 0
  {
    if k > 0 {
      LevelDividesRoot(ds, k - 1);
      CoarseIsFine(ds[0], ds[k - 1], ds[k]);
    }
  }

  lemma {:induction false} FinerIsSmaller(v: Visit, j: nat, k: nat)
    requires v.Valid() && j <= k < |v.ds|
    ensures v.ds[k] <= v.ds[j]
  {
    if j < k {
      FinerIsSmaller(v, j, k - 1);
    }
  }

  /** How the walk of an untame ladder begins: the root bucket with the saturated row of children inside. */
  lemma FirstRoot(v: Visit)
    requires Untame(v)
    ensures |v.ds| >= 2 && I64_MIN < Top(v) < v.max && v.Moves(I64_MAX - v.ds[1])
    ensures v.Bucket(0, Top(v), []).trace
         == v.Level(1, I64_MAX - v.ds[1], Top(v), [Opened(Top(v), 0)]).trace + [Closed(Top(v), 0)]
  {
    SaturatedChild(v);
    v.FirstChildMoves(0, Top(v));
    assert [] + [Opened(Top(v), 0)] == [Opened(Top(v), 0)];
    hide Visit.Level, RoundDown, Visit.FirstChild;
    LevelGoesOn(v, 1, I64_MAX - v.ds[1], Top(v), [Opened(Top(v), 0)]);
  }

  // When the saturated row starts after the root bucket, the root bucket's first finest bucket is missed.

  /** The row never meets the start of the root bucket, which is on the grid that the row has left. */
  lemma RowAfterTop(v: Visit, t: int, hist: seq<Event>)
    requires Untame(v) && |v.ds| >= 2 && 0 <= Top(v) < t && StartsAfter(v, 1, Top(v)) && t % v.ds[1] != 0
    ensures Between(v.Level(1, t, Top(v), hist).trace, |hist|, Top(v), t + v.ds[1])
    decreases t
  {
    TopFacts(v);
    hide Visit.Bucket, StartsAfter, Top;
    var d := v.ds[1];
    BucketBetween(v, 1, t, hist, Top(v), t + d);
    BucketExtends(v, 1, t, hist);
    var here := v.Bucket(1, t, hist);
    if here.goesOn && SatSub(t, d) >= Top(v) {
      if (t - d) % d == 0 {
        SumIsMultiple(t - d, d, d);
      }
      RowAfterTop(v, t - d, here.trace);
      LevelExtends(v, 1, t - d, Top(v), here.trace);
    }
  }

  lemma TopIsMissed(v: Visit, min: i64)
    requires Untame(v) && Terminates(min, v.ds) && I64_MAX % v.ds[1] != 0 && Top(v) < I64_MAX - v.ds[1]
    ensures Opened(Top(v), |v.ds| - 1) !in FullWalk(v.max, min, v.ds, v.calls).trace
  {
    FirstRoot(v);
    TopFacts(v);
    RowStartsAfter(v);
    var d, top, u, oldest := v.ds[1], Top(v), I64_MAX - v.ds[1], RoundDown(min, v.ds[0]);
    if u % d == 0 {
      SumIsMultiple(u, d, d);
    }
    var hist := [Opened(top, 0)];
    RowAfterTop(v, u, hist);
    LevelExtends(v, 1, u, top, hist);
    var here := v.Bucket(0, top, []);
    assert Opened(top, |v.ds| - 1) !in here.trace by {
      hide Visit.Level, Visit.Bucket, RoundDown;
    }
    if here.goesOn && SatSub(top, v.ds[0]) >= oldest {
      EarlierRoots(v, oldest, here.trace);
    }
  }

  lemma RowStartsAfter(v: Visit)
    requires Untame(v) && |v.ds| >= 2 && Top(v) < I64_MAX - v.ds[1]
    ensures StartsAfter(v, 1, Top(v))
  {
    forall k | 1 < k < |v.ds| ensures Top(v) < RoundDown(v.max, v.ds[k]) && Top(v) < I64_MAX - v.ds[k] {
      FinerIsSmaller(v, 1, k);
      RoundedRowIsLater(v, k);
    }
  }

  lemma RoundedRowIsLater(v: Visit, k: nat)
    requires Untame(v) && 1 < k < |v.ds| && Top(v) < I64_MAX - v.ds[1]
    ensures Top(v) < RoundDown(v.max, v.ds[k])
  {
    TopFacts(v);
    LevelDividesRoot(v.ds[1..], k - 1);
    RoundedTime(v.max, v.ds[1]);
    hide RoundDown;
    CoarseIsFine(RoundDown(v.max, v.ds[1]), v.ds[1], v.ds[k]);
    RoundedIsLatest(v.max, RoundDown(v.max, v.ds[1]), v.ds[k]);
  }

  /** The root buckets before the first one stay before it. */
  lemma EarlierRoots(v: Visit, oldest: int, hist: seq<Event>)
    requires Untame(v) && I64_MIN < oldest <= Top(v) - v.ds[0]
    ensures var w := v.Level(0, Top(v) - v.ds[0], oldest, hist);
            hist <= w.trace && Between(w.trace, |hist|, oldest - 1, Top(v))
  {
    TopFacts(v);
    hide Visit.Level, RoundDown, Top;
    forall k | 0 < k < |v.ds| ensures oldest - 1 < RoundDown(v.max, v.ds[k]) && oldest - 1 < I64_MAX - v.ds[k] {
      FinerIsSmaller(v, 0, k);
    }
    LevelBetween(v, 0, Top(v) - v.ds[0], oldest, hist, oldest - 1, Top(v));
    LevelExtends(v, 0, Top(v) - v.ds[0], oldest, hist);
  }

  // When the saturated row starts before the root bucket, finest buckets from before it are opened inside.

  /** A row of siblings ends in a bucket less than one duration after the oldest time. */
  lemma LastSibling(v: Visit, i: nat, t: int, oldest: int, hist: seq<Event>) returns (w: int, h: seq<Event>)
    requires v.Valid() && i < |v.ds| && t > I64_MIN && oldest > I64_MIN && v.calls == ALWAYS
    ensures I64_MIN < w < oldest + v.ds[i]
    ensures v.Level(i, t, oldest, hist) == v.Bucket(i, w, h)
    decreases Gap(t, oldest)
  {
    hide Visit.Bucket;
    w, h := t, hist;
    BucketGoesOn(v, i, t, hist);
    if SatSub(t, v.ds[i]) >= oldest {
      w, h := LastSibling(v, i, SatSub(t, v.ds[i]), oldest, v.Bucket(i, t, hist).trace);
    }
  }

  /** Every bucket that ends by the end of an earlier root bucket has a finest bucket inside. */
  lemma HasLeaf(v: Visit, i: nat, t: int, hist: seq<Event>) returns (e: int)
    requires Untame(v) && i < |v.ds| && I64_MIN < t && t + v.ds[i] <= Top(v)
    ensures e < t + v.ds[i] && Opened(e, |v.ds| - 1) in v.Bucket(i, t, hist).trace
    decreases |v.ds| - i
  {
    TopFacts(v);
    BucketExtends(v, i, t, hist);
    e := t;
    if i + 1 < |v.ds| {
      var first, h := v.FirstChild(i, t), hist + [Opened(t, i)];
      assert first + v.ds[i + 1] == t + v.ds[i] by {
        hide RoundDown;
      }
      hide Visit.Level, RoundDown, Visit.FirstChild;
      e := HasLeaf(v, i + 1, first, h);
      LevelContainsFirst(v, i + 1, first, t, h);
      LevelGoesOn(v, i + 1, first, t, h);
    } else {
      assert (hist + [Opened(t, i)])[|hist|] == Opened(t, i);
    }
  }

  lemma LevelContainsFirst(v: Visit, i: nat, t: int, oldest: int, hist: seq<Event>)
    requires v.Valid() && i < |v.ds| && v.Moves(t) && oldest > I64_MIN
    ensures v.Bucket(i, t, hist).trace <= v.Level(i, t, oldest, hist).trace
  {
    hide Visit.Bucket;
    var here := v.Bucket(i, t, hist);
    if here.goesOn && SatSub(t, v.ds[i]) >= oldest {
      LevelExtends(v, i, SatSub(t, v.ds[i]), oldest, here.trace);
    }
  }

  /** The row starts far enough before the root bucket for a whole bucket of the level below to end before it. */
  ghost predicate RowIsEarly(v: Visit)
    requires v.Valid()
  {
    |v.ds| > 2 && 0 < I64_MAX - v.ds[1] && I64_MAX - v.ds[1] + 2 * v.ds[2] <= RoundDown(v.max, v.ds[0])
  }

  lemma LeafBeforeTop(v: Visit) returns (e: int)
    requires Untame(v) && RowIsEarly(v)
    ensures e < Top(v) && Opened(e, |v.ds| - 1) in v.Bucket(0, Top(v), []).trace
  {
    TopFacts(v);
    FirstRoot(v);
    hide RoundDown, Tame, Nested;
    var u, hist := I64_MAX - v.ds[1], [Opened(Top(v), 0)];
    var h := hist + [Opened(u, 1)];
    v.FirstChildMoves(1, u);
    var first := v.FirstChild(1, u);
    assert I64_MIN < first;
    var w, before := LastSibling(v, 2, first, u, h);
    e := HasLeaf(v, 2, w, before);
    assert Opened(e, |v.ds| - 1) in v.Bucket(1, u, hist).trace by {
      BucketGoesOn(v, 1, u, hist);
    }
    LevelContainsFirst(v, 1, u, Top(v), hist);
  }

  lemma EarlierSettles(v: Visit)
    requires Untame(v)
    ensures Full(v, Top(v))
  {
    TopFacts(v);
    hide Tame, Nested, ChildrenFit;
    forall i: nat, t | i + 1 < |v.ds| && t % v.ds[i] == 0 && I64_MIN < t < v.max && t + v.ds[i] <= Top(v)
      ensures ChildrenFit(v, i, t)
    {
      EarlierChildrenFit(v, i, t);
    }
  }

  lemma EarlierChildrenFit(v: Visit, i: nat, t: int)
    requires Untame(v) && i + 1 < |v.ds| && t % v.ds[i] == 0 && I64_MIN < t && t + v.ds[i] <= Top(v)
    ensures ChildrenFit(v, i, t)
  {
    TopFacts(v);
    hide RoundDown;
    var d := v.ds[i + 1];
    CoarseIsFine(t, v.ds[i], d);
    SumIsMultiple(t, v.ds[i], d);
    StepDown(t, t + v.ds[i], d);
  }

  /** The root bucket before the first one opens the finest bucket that ends at the first one's start. */
  lemma EarlierRootLeaf(v: Visit, hist: seq<Event>)
    requires Untame(v) && I64_MIN < Top(v) - v.ds[0]
    ensures var (leaf, f) := (|v.ds| - 1, Finest(v));
            var next := v.Bucket(0, Top(v) - v.ds[0], hist).trace;
            && |Leaves(next, leaf)| > |Leaves(hist, leaf)|
            && Leaves(next, leaf)[|Leaves(hist, leaf)|] == Top(v) - f
            && Leaves(hist, leaf) <= Leaves(next, leaf)
  {
    TopFacts(v);
    EarlierSettles(v);
    EveryLevelIsCoarser(v.ds, 0);
    var f, c, top := Finest(v), v.ds[0], Top(v);
    DifferenceIsMultiple(top, c, c);
    hide RoundDown, Tame, Nested, Settled, RoundUp, Leaves, Visit.Bucket;
    FullBucket(v, top, 0, top - c, hist);
    assert Grid(f, top - c, top)[0] == top - f;
  }

  /** The finest buckets of the first root bucket come first, followed by the one that ends at its start. */
  lemma FirstRootLeaves(v: Visit, oldest: int)
    requires Untame(v) && oldest > I64_MIN && v.Moves(Top(v))
    ensures var here := Leaves(v.Bucket(0, Top(v), []).trace, |v.ds| - 1);
            var leaves := Leaves(v.Level(0, Top(v), oldest, []).trace, |v.ds| - 1);
            && here <= leaves
            && (oldest <= Top(v) - v.ds[0] ==> |here| < |leaves| && leaves[|here|] == Top(v) - Finest(v))
  {
    hide Tame, Nested, Visit.Bucket, Leaves, Top;
    var c, leaf, top := v.ds[0], |v.ds| - 1, Top(v);
    BucketGoesOn(v, 0, top, []);
    var here := v.Bucket(0, top, []);
    var trace := v.Level(0, top, oldest, []).trace;
    LevelContainsFirst(v, 0, top, oldest, []);
    LeavesOfPrefix(here.trace, trace, leaf);
    if oldest <= top - c {
      EarlierRootLeaf(v, here.trace);
      var next := v.Bucket(0, top - c, here.trace);
      LevelContainsFirst(v, 0, top - c, oldest, here.trace);
      LeavesOfPrefix(next.trace, trace, leaf);
    }
  }

  /** Where the early finest bucket, and the one right before the root bucket, stand among those opened. */
  lemma EarlyLeafListed(v: Visit, oldest: int) returns (e: int, j: nat, k: nat)
    requires Untame(v) && RowIsEarly(v) && oldest > I64_MIN && v.Moves(Top(v))
    ensures var leaves := Leaves(v.Level(0, Top(v), oldest, []).trace, |v.ds| - 1);
            && e < Top(v) && j < |leaves| && leaves[j] == e
            && (oldest <= Top(v) - v.ds[0] ==> j < k < |leaves| && leaves[k] == Top(v) - Finest(v))
  {
    hide Tame, Nested, Visit.Bucket, Visit.Level, Leaves, RowIsEarly, Top;
    FirstRootLeaves(v, oldest);
    e := LeafBeforeTop(v);
    var here, leaf := v.Bucket(0, Top(v), []).trace, |v.ds| - 1;
    LeavesAreOpened(here, leaf, e);
    j :| 0 <= j < |Leaves(here, leaf)| && Leaves(here, leaf)[j] == e;
    k := |Leaves(here, leaf)|;
  }

  lemma BeforeTop(e: int, top: int, oldest: int, c: nat, f: nat)
    requires c > 0 && f > 0 && e % f == 0 && top % f == 0 && oldest % c == 0 && top % c == 0
    requires Min(oldest, top) <= e < top
    ensures e <= top - f && oldest <= top - c
  {
    StepDown(e, top, f);
    StepDown(oldest, top, c);
  }

  lemma TopOnGrids(v: Visit, min: i64)
    requires Untame(v) && Terminates(min, v.ds)
    ensures Top(v) % v.ds[0] == 0 && Top(v) % Finest(v) == 0 && RoundDown(min, v.ds[0]) % v.ds[0] == 0
    ensures RootStart(v.max, min, v.ds[0]) == Min(RoundDown(min, v.ds[0]), Top(v)) && v.Moves(Top(v))
  {
    TopFacts(v);
    TopMoves(v);
    RoundedTime(min, v.ds[0]);
    EveryLevelIsCoarser(v.ds, 0);
    Roots(v.max, min, v.ds[0], Finest(v));
  }

  /** What tiling says of two finest buckets that were opened one after the other. */
  lemma TiledLeaves(v: Visit, min: i64, j: nat, k: nat)
    requires v.Valid() && v.ds != [] && Terminates(min, v.ds) && Tiles(v, min)
    ensures var leaves := Leaves(FullWalk(v.max, min, v.ds, v.calls).trace, |v.ds| - 1);
            && (j < |leaves| ==> RootStart(v.max, min, v.ds[0]) <= leaves[j] && leaves[j] % Finest(v) == 0)
            && (j < k < |leaves| ==> leaves[j] > leaves[k])
  {
    hide FullWalk, Leaves, RootStart;
    var leaves := Leaves(FullWalk(v.max, min, v.ds, v.calls).trace, |v.ds| - 1);
    if j < |leaves| {
      assert leaves[j] in leaves;
    }
  }

  /** A finest bucket from before the root bucket is out of the range, or stands before one that starts later. */
  lemma EarlyRowDoesNotTile(v: Visit, min: i64)
    requires Untame(v) && Terminates(min, v.ds) && RowIsEarly(v)
    ensures !Tiles(v, min)
  {
    if Tiles(v, min) {
      hide Untame, Tiles, RoundDown, Visit.Level, Leaves, RowIsEarly, RootStart;
      var oldest := RoundDown(min, v.ds[0]);
      TopOnGrids(v, min);
      var e, j, k := EarlyLeafListed(v, oldest);
      TiledLeaves(v, min, j, k);
      BeforeTop(e, Top(v), oldest, v.ds[0], Finest(v));
      assert false;
    }
  }

  lemma LateRowDoesNotTile(v: Visit, min: i64)
    requires Untame(v) && Terminates(min, v.ds) && I64_MAX % v.ds[1] != 0 && Top(v) < I64_MAX - v.ds[1]
    ensures !Tiles(v, min)
  {
    TopFacts(v);
    TopIsMissed(v, min);
    LeavesAreOpened(FullWalk(v.max, min, v.ds, v.calls).trace, |v.ds| - 1, Top(v));
    EveryLevelIsCoarser(v.ds, 0);
    Roots(v.max, min, v.ds[0], Finest(v));
  }

  // ---------------------------------------------------------------------------------------------
  // The ladders of the bucket types

  /** All untame ends of one ladder lie in its last root bucket. */
  lemma TopOfTime(v: Visit)
    requires Untame(v)
    ensures Top(v) == I64_MAX - I64_MAX % v.ds[0]
  {
    TopFacts(v);
    hide RoundDown, Tame, Nested;
    assert Top(v) == v.ds[0] * (Top(v) / v.ds[0]);
    UniqueRemainder(I64_MAX, v.ds[0], Top(v) / v.ds[0], I64_MAX - Top(v));
  }

  lemma LastRoots(b: BucketType)
    ensures var ds := DurationsFor(b);
            |ds| > 2 && 0 < I64_MAX - ds[1] && I64_MAX % ds[1] != 0 &&
            if b == Sequel then I64_MAX % ds[0] > ds[1] else I64_MAX % ds[0] + 2 * ds[2] <= ds[1]
  {
  }

  /** For the ladder of every bucket type: a full descent tiles its range if and only if its end is tame. */
  lemma FullDescentTiles(max: i64, min: i64, b: BucketType)
    ensures var v := Visit(DurationsFor(b), max, ALWAYS);
            && v.Valid() && v.ds != [] && Terminates(min, v.ds) && Finest(v) == 60_000
            && (Tiles(v, min) <==> Tame(max, v.ds))
  {
    LadderIsNested(b);
    LadderIsWalkable(b, max, min, ALWAYS);
    LastRoots(b);
    hide DurationsFor, Tiles;
    var v := Visit(DurationsFor(b), max, ALWAYS);
    if Tame(max, v.ds) {
      TilesExactly(v, min);
    } else {
      TopOfTime(v);
      if b == Sequel {
        LateRowDoesNotTile(v, min);
      } else {
        EarlyRowDoesNotTile(v, min);
      }
    }
  }

  /** The last instant is such an end on every ladder. */
  lemma EndOfTimeIsUntame(b: BucketType, min: i64)
    ensures var v := Visit(DurationsFor(b), I64_MAX, ALWAYS);
            && v.Valid() && v.ds != [] && Terminates(min, v.ds) && !Tame(I64_MAX, v.ds) && !Tiles(v, min)
  {
    FullDescentTiles(I64_MAX, min, b);
    RoundedTime(I64_MAX, DurationsFor(b)[1]);
    LastRoots(b);
    UntameAtTheEnd(b);
  }

  lemma UntameAtTheEnd(b: BucketType)
    ensures !Tame(I64_MAX, DurationsFor(b))
  {
  }
}
