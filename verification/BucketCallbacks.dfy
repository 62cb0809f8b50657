/** What the answers of the two callbacks do to a walk over the bucket ladder (recursive_bucket_visitor.rs). */
module BucketCallbacks {
  import opened Arith
  import opened Bytes
  import opened Buckets
  import opened BucketVisitor

  // A part of a walk continues a history; event k of it was reported to a callback that knew all events before.

  /** The callback that was told of event k answered that the walk is over. */
  predicate Stops(v: Visit, hist: seq<Event>, part: seq<Event>, k: nat) {
    k < |part| && part[k].level < |v.ds| &&
    match part[k]
    case Opened(t, i) => v.calls.onOpen(hist + part[..k], t, v.ds[i]) == StopOpening
    case Closed(t, i) => v.calls.onClose(hist + part[..k], t, v.ds[i]) == StopClosing
  }

  /** Event k opens a bucket, and the answer was to go into its children, of which there are some. */
  predicate Descends(v: Visit, hist: seq<Event>, part: seq<Event>, k: nat)
    ensures Descends(v, hist, part, k) ==> k < |part|
  {
    k < |part| && part[k].Opened? && part[k].level + 1 < |v.ds|
    && v.calls.onOpen(hist + part[..k], part[k].time, v.ds[part[k].level]) == WithChildren
  }

  /** A bucket of the next finer level inside the bucket opened, early enough for the walk. */
  predicate IsChild(v: Visit, e: Event, c: int) {
    && e.level + 1 < |v.ds| && v.ds[e.level + 1] > 0
    && e.time <= c < e.time + v.ds[e.level] && c < v.max && c % v.ds[e.level + 1] == 0
  }

  /** The walk ends at the first answer to stop, and is only then said not to go on. */
  ghost predicate StopsAtOnce(v: Visit, hist: seq<Event>, part: seq<Event>, goesOn: bool) {
    && (!goesOn ==> part != [])
    && forall k: nat :: k < |part| ==> (Stops(v, hist, part, k) <==> !goesOn && k == |part| - 1)
  }

  /** A bucket opened without descending, and without stopping, is closed next. */
  ghost predicate SkipsWhenTold(v: Visit, hist: seq<Event>, part: seq<Event>) {
    forall k: nat :: k < |part| && part[k].Opened? && !Stops(v, hist, part, k) && !Descends(v, hist, part, k) ==>
      k + 1 < |part| && part[k + 1] == Closed(part[k].time, part[k].level)
  }

  ghost predicate HasParent(v: Visit, hist: seq<Event>, part: seq<Event>, m: nat) {
    m < |part| &&
    exists k: nat :: k < m && Descends(v, hist, part, k) && part[k].level + 1 == part[m].level
                     && IsChild(v, part[k], part[m].time)
  }

  /** Below the level the part starts on, only children of buckets that were descended into are opened, and after them. */
  ghost predicate OnlyChildren(v: Visit, base: nat, hist: seq<Event>, part: seq<Event>) {
    forall m: nat :: m < |part| && part[m].Opened? && part[m].level > base ==> HasParent(v, hist, part, m)
  }

  /** All children of a bucket descended into are opened. */
  ghost predicate AllChildren(v: Visit, hist: seq<Event>, part: seq<Event>) {
    forall k: nat, c :: Descends(v, hist, part, k) && IsChild(v, part[k], c) ==> Opened(c, part[k].level + 1) in part
  }

  /** Every bucket opened is closed later. */
  ghost predicate ClosesAll(part: seq<Event>) {
    forall k: nat :: k < |part| && part[k].Opened? ==> IsClosed(part, k)
  }

  ghost predicate IsClosed(part: seq<Event>, k: nat) {
    k < |part| && exists m: nat :: k < m < |part| && part[m] == Closed(part[k].time, part[k].level)
  }

  ghost predicate Obeys(v: Visit, base: nat, hist: seq<Event>, part: seq<Event>, goesOn: bool) {
    && (forall k :: 0 <= k < |part| ==> part[k].level < |v.ds|)
    && StopsAtOnce(v, hist, part, goesOn) && SkipsWhenTold(v, hist, part) && OnlyChildren(v, base, hist, part)
    && (goesOn ==> AllChildren(v, hist, part) && ClosesAll(part))
  }

  // ---------------------------------------------------------------------------------------------
  // One part after another

  lemma Front(v: Visit, hist: seq<Event>, a: seq<Event>, b: seq<Event>, k: nat)
    requires k < |a|
    ensures (a + b)[k] == a[k] && Stops(v, hist, a + b, k) == Stops(v, hist, a, k)
    ensures Descends(v, hist, a + b, k) == Descends(v, hist, a, k)
  {
    assert (a + b)[..k] == a[..k];
  }

  lemma Back(v: Visit, hist: seq<Event>, a: seq<Event>, b: seq<Event>, k: nat)
    requires k < |b|
    ensures (a + b)[|a| + k] == b[k] && Stops(v, hist, a + b, |a| + k) == Stops(v, hist + a, b, k)
    ensures Descends(v, hist, a + b, |a| + k) == Descends(v, hist + a, b, k)
  {
    assert hist + (a + b)[..|a| + k] == hist + a + b[..k];
  }

  /** Where event k of a joined part comes from. */
  lemma Joined(v: Visit, hist: seq<Event>, a: seq<Event>, b: seq<Event>, k: nat)
    requires k < |a + b|
    ensures k < |a| ==> (a + b)[k] == a[k] && Stops(v, hist, a + b, k) == Stops(v, hist, a, k)
                        && Descends(v, hist, a + b, k) == Descends(v, hist, a, k)
    ensures k >= |a| ==> (a + b)[k] == b[k - |a|] && Stops(v, hist, a + b, k) == Stops(v, hist + a, b, k - |a|)
                         && Descends(v, hist, a + b, k) == Descends(v, hist + a, b, k - |a|)
  {
    if k < |a| {
      Front(v, hist, a, b, k);
    } else {
      Back(v, hist, a, b, k - |a|);
    }
  }

  lemma JoinParents(v: Visit, base: nat, hist: seq<Event>, a: seq<Event>, b: seq<Event>)
    requires OnlyChildren(v, base, hist, a) && OnlyChildren(v, base, hist + a, b)
    ensures OnlyChildren(v, base, hist, a + b)
  {
    hide Stops, Descends, IsChild;
    forall m: nat | m < |a + b| && (a + b)[m].Opened? && (a + b)[m].level > base ensures HasParent(v, hist, a + b, m) {
      if m < |a| {
        var k: nat :| k < m && Descends(v, hist, a, k) && a[k].level + 1 == a[m].level && IsChild(v, a[k], a[m].time);
        Front(v, hist, a, b, k);
      } else {
        var n := m - |a|;
        assert HasParent(v, hist + a, b, n);
        var k: nat :| k < n && Descends(v, hist + a, b, k) && b[k].level + 1 == b[n].level && IsChild(v, b[k], b[n].time);
        Back(v, hist, a, b, k);
      }
    }
  }

  lemma JoinCloses(a: seq<Event>, b: seq<Event>)
    requires ClosesAll(a) && ClosesAll(b)
    ensures ClosesAll(a + b)
  {
    var all := a + b;
    forall k: nat | k < |all| && all[k].Opened? ensures IsClosed(all, k) {
      if k < |a| {
        assert IsClosed(a, k);
        var m: nat :| k < m < |a| && a[m] == Closed(a[k].time, a[k].level);
        assert all[m] == Closed(all[k].time, all[k].level);
      } else {
        assert IsClosed(b, k - |a|);
        var m: nat :| k - |a| < m < |b| && b[m] == Closed(b[k - |a|].time, b[k - |a|].level);
        assert all[m + |a|] == Closed(all[k].time, all[k].level);
      }
    }
  }

  lemma JoinChildren(v: Visit, hist: seq<Event>, a: seq<Event>, b: seq<Event>)
    requires AllChildren(v, hist, a) && AllChildren(v, hist + a, b)
    ensures AllChildren(v, hist, a + b)
  {
    hide Stops, IsChild;
    var all := a + b;
    forall k: nat, c | Descends(v, hist, all, k) && IsChild(v, all[k], c) ensures Opened(c, all[k].level + 1) in all {
      Joined(v, hist, a, b, k);
    }
  }

  /** Parts that obey the callbacks, joined, obey them. */
  lemma Join(v: Visit, base: nat, hist: seq<Event>, a: seq<Event>, b: seq<Event>, goesOn: bool)
    requires Obeys(v, base, hist, a, true) && Obeys(v, base, hist + a, b, goesOn)
    ensures Obeys(v, base, hist, a + b, goesOn)
  {
    hide Stops, Descends, IsChild;
    var all := a + b;
    JoinParents(v, base, hist, a, b);
    if goesOn {
      JoinChildren(v, hist, a, b);
      JoinCloses(a, b);
    }
    forall k: nat | k < |all| ensures Stops(v, hist, all, k) <==> !goesOn && k == |all| - 1 {
      Joined(v, hist, a, b, k);
    }
    forall k: nat | k < |all| && all[k].Opened? && !Stops(v, hist, all, k) && !Descends(v, hist, all, k)
      ensures k + 1 < |all| && all[k + 1] == Closed(all[k].time, all[k].level)
    {
      Joined(v, hist, a, b, k);
    }
  }

  // ---------------------------------------------------------------------------------------------
  // One bucket

  lemma Nothing(v: Visit, base: nat, hist: seq<Event>)
    ensures Obeys(v, base, hist, [], true)
  {
  }

  lemma ClosingObeys(v: Visit, base: nat, hist: seq<Event>, t: int, i: nat, goesOn: bool)
    requires i < |v.ds| && (goesOn <==> v.calls.onClose(hist, t, v.ds[i]) != StopClosing)
    ensures Obeys(v, base, hist, [Closed(t, i)], goesOn)
  {
    var part: seq<Event> := [Closed(t, i)];
    assert hist + part[..0] == hist;
  }

  lemma StoppedObeys(v: Visit, hist: seq<Event>, t: int, i: nat)
    requires i < |v.ds| && v.calls.onOpen(hist, t, v.ds[i]) == StopOpening
    ensures Obeys(v, i, hist, [Opened(t, i)], false)
  {
    var part: seq<Event> := [Opened(t, i)];
    assert hist + part[..0] == hist;
  }

  /** What follows the opening of a bucket: its children, then its close; or its close at once. */
  ghost predicate FitsInside(v: Visit, hist: seq<Event>, t: int, i: nat, rest: seq<Event>, goesOn: bool) {
    && i < |v.ds|
    && Obeys(v, i + 1, hist + [Opened(t, i)], rest, goesOn)
    && v.calls.onOpen(hist, t, v.ds[i]) != StopOpening
    && (goesOn ==> Closed(t, i) in rest)
    && if v.calls.onOpen(hist, t, v.ds[i]) == WithChildren && i + 1 < |v.ds| then
         && (forall m :: 0 <= m < |rest| && rest[m].Opened? && rest[m].level == i + 1 ==> IsChild(v, Opened(t, i), rest[m].time))
         && (goesOn ==> forall c :: IsChild(v, Opened(t, i), c) ==> Opened(c, i + 1) in rest)
       else rest != [] && rest[0] == Closed(t, i) && forall m :: 0 <= m < |rest| ==> !rest[m].Opened?
  }

  lemma FirstDescends(v: Visit, hist: seq<Event>, t: int, i: nat, rest: seq<Event>)
    ensures Descends(v, hist, [Opened(t, i)] + rest, 0) <==>
              i + 1 < |v.ds| && v.calls.onOpen(hist, t, v.ds[i]) == WithChildren
  {
    assert hist + ([Opened(t, i)] + rest)[..0] == hist;
  }

  lemma OpeningParents(v: Visit, hist: seq<Event>, t: int, i: nat, rest: seq<Event>)
    requires OnlyChildren(v, i + 1, hist + [Opened(t, i)], rest)
    requires forall m :: 0 <= m < |rest| && rest[m].Opened? && rest[m].level == i + 1 ==>
               Descends(v, hist, [Opened(t, i)] + rest, 0) && IsChild(v, Opened(t, i), rest[m].time)
    ensures OnlyChildren(v, i, hist, [Opened(t, i)] + rest)
  {
    hide Stops, Descends, IsChild;
    var first: seq<Event> := [Opened(t, i)];
    var all := first + rest;
    forall m: nat | m < |all| && all[m].Opened? && all[m].level > i ensures HasParent(v, hist, all, m) {
      var n := m - 1;
      assert all[m] == rest[n] && all[0] == Opened(t, i);
      if rest[n].level > i + 1 {
        assert HasParent(v, hist + first, rest, n);
        var k: nat :| k < n && Descends(v, hist + first, rest, k) && rest[k].level + 1 == rest[n].level
                      && IsChild(v, rest[k], rest[n].time);
        Back(v, hist, first, rest, k);
      }
    }
  }

  lemma OpeningChildren(v: Visit, hist: seq<Event>, t: int, i: nat, rest: seq<Event>)
    requires AllChildren(v, hist + [Opened(t, i)], rest)
    requires i + 1 < |v.ds| && v.calls.onOpen(hist, t, v.ds[i]) == WithChildren ==>
               forall c :: IsChild(v, Opened(t, i), c) ==> Opened(c, i + 1) in rest
    ensures AllChildren(v, hist, [Opened(t, i)] + rest)
  {
    var first: seq<Event> := [Opened(t, i)];
    var all := first + rest;
    FirstDescends(v, hist, t, i, rest);
    hide Stops, Descends, IsChild;
    forall k: nat, c | Descends(v, hist, all, k) && IsChild(v, all[k], c) ensures Opened(c, all[k].level + 1) in all {
      if k > 0 {
        Back(v, hist, first, rest, k - 1);
        assert IsChild(v, rest[k - 1], c);
        assert Opened(c, rest[k - 1].level + 1) in rest;
      } else {
        assert all[0] == Opened(t, i);
        assert Opened(c, i + 1) in rest;
      }
    }
  }

  lemma OpeningCloses(t: int, i: nat, rest: seq<Event>)
    requires ClosesAll(rest) && Closed(t, i) in rest
    ensures ClosesAll([Opened(t, i)] + rest)
  {
    var all := [Opened(t, i)] + rest;
    forall k: nat | k < |all| && all[k].Opened? ensures IsClosed(all, k) {
      if k == 0 {
        var m :| 0 <= m < |rest| && rest[m] == Closed(t, i);
        assert all[m + 1] == Closed(t, i);
      } else {
        assert IsClosed(rest, k - 1);
        var m: nat :| k - 1 < m < |rest| && rest[m] == Closed(rest[k - 1].time, rest[k - 1].level);
        assert all[m + 1] == Closed(all[k].time, all[k].level);
      }
    }
  }

  lemma OpeningObeys(v: Visit, hist: seq<Event>, t: int, i: nat, rest: seq<Event>, goesOn: bool)
    requires FitsInside(v, hist, t, i, rest, goesOn)
    ensures Obeys(v, i, hist, [Opened(t, i)] + rest, goesOn)
  {
    var first: seq<Event> := [Opened(t, i)];
    var all := first + rest;
    FirstDescends(v, hist, t, i, rest);
    OpeningParents(v, hist, t, i, rest);
    if goesOn {
      OpeningChildren(v, hist, t, i, rest);
      OpeningCloses(t, i, rest);
    }
    assert hist + all[..0] == hist;
    assert !Stops(v, hist, all, 0);
    forall k: nat | k < |all| ensures Stops(v, hist, all, k) <==> !goesOn && k == |all| - 1 {
      Joined(v, hist, first, rest, k);
    }
    forall k: nat | k < |all| && all[k].Opened? && !Stops(v, hist, all, k) && !Descends(v, hist, all, k)
      ensures k + 1 < |all| && all[k + 1] == Closed(all[k].time, all[k].level)
    {
      Joined(v, hist, first, rest, k);
    }
  }
  // ---------------------------------------------------------------------------------------------
  // The walk

  /** Every bucket of a level between two times that is early enough is opened. */
  ghost predicate OpensAll(v: Visit, i: nat, oldest: int, latest: int, part: seq<Event>) {
    i < |v.ds| && v.ds[i] > 0 && forall s :: s % v.ds[i] == 0 && oldest <= s <= latest && s < v.max ==> Opened(s, i) in part
  }

  /** Buckets opened on a level lie on its grid between two times. */
  ghost predicate OpensOnly(v: Visit, i: nat, oldest: int, end: int, part: seq<Event>) {
    forall m :: 0 <= m < |part| && part[m].Opened? && part[m].level == i ==> InWindow(v, i, oldest, end, part[m])
  }

  /** The children of a bucket are those of its level between it and the last one. */
  lemma ChildrenAreALevel(v: Visit, end: int, i: nat, t: int, inner: seq<Event>, goesOn: bool)
    requires Settled(v, end) && i + 1 < |v.ds| && t % v.ds[i] == 0 && I64_MIN < t < v.max && t + v.ds[i] <= end
    requires OpensOnly(v, i + 1, t, t + v.ds[i], inner)
    requires goesOn ==> OpensAll(v, i + 1, t, v.FirstChild(i, t), inner)
    ensures forall m :: 0 <= m < |inner| && inner[m].Opened? && inner[m].level == i + 1 ==>
              IsChild(v, Opened(t, i), inner[m].time)
    ensures goesOn ==> forall c :: IsChild(v, Opened(t, i), c) ==> Opened(c, i + 1) in inner
  {
    hide RoundDown;
    assert ChildrenFit(v, i, t);
    var (d, first) := (v.ds[i + 1], v.FirstChild(i, t));
    hide Visit.FirstChild;
    if goesOn {
      forall c | IsChild(v, Opened(t, i), c) ensures Opened(c, i + 1) in inner {
        if c > first {
          StepDown(first, c, d);
        }
      }
    }
  }

  lemma {:induction false} BucketObeys(v: Visit, end: int, i: nat, t: int, hist: seq<Event>) returns (part: seq<Event>)
    requires Settled(v, end) && i < |v.ds| && t % v.ds[i] == 0 && v.Moves(t) && t + v.ds[i] <= end
    ensures v.Bucket(i, t, hist).trace == hist + part
    ensures Obeys(v, i, hist, part, v.Bucket(i, t, hist).goesOn)
    ensures v.Bucket(i, t, hist).goesOn && t < v.max ==> Opened(t, i) in part
    decreases |v.ds| - i, 1
  {
    assert v.Valid();
    hide Visit.Inside, Obeys, Settled;
    part := [];
    if t >= v.max {
      Nothing(v, i, hist);
      assert hist + [] == hist;
    } else {
      var answer := v.calls.onOpen(hist, t, v.ds[i]);
      part := [Opened(t, i)];
      if answer == StopOpening {
        StoppedObeys(v, hist, t, i);
      } else {
        var rest := RestObeys(v, end, i, t, hist, answer);
        OpeningObeys(v, hist, t, i, rest, v.Bucket(i, t, hist).goesOn);
        part := part + rest;
        assert hist + [Opened(t, i)] + rest == hist + part;
        assert part[0] == Opened(t, i);
      }
    }
  }

  /** Inside a bucket, and its close. */
  lemma {:induction false} RestObeys(v: Visit, end: int, i: nat, t: int, hist: seq<Event>, answer: OpenAnswer) returns (rest: seq<Event>)
    requires Settled(v, end) && i < |v.ds| && t % v.ds[i] == 0 && I64_MIN < t < v.max && t + v.ds[i] <= end
    requires answer == v.calls.onOpen(hist, t, v.ds[i]) && answer != StopOpening
    ensures v.Bucket(i, t, hist).trace == hist + [Opened(t, i)] + rest
    ensures FitsInside(v, hist, t, i, rest, v.Bucket(i, t, hist).goesOn)
    decreases |v.ds| - i, 0, 1
  {
    assert v.Valid();
    hide Obeys, Settled;
    var h := hist + [Opened(t, i)];
    var inner := InnerObeys(v, end, i, t, h, answer);
    var w := v.Inside(i, t, answer, h);
    assert w.trace == h + inner;
    hide Visit.Inside;
    rest := inner;
    if w.goesOn {
      var closes := v.calls.onClose(w.trace, t, v.ds[i]) == Continue;
      ClosingObeys(v, i + 1, h + inner, t, i, closes);
      Join(v, i + 1, h, inner, [Closed(t, i)], closes);
      rest := inner + [Closed(t, i)];
      assert h + inner + [Closed(t, i)] == h + rest;
      assert rest[|inner|] == Closed(t, i);
    }
  }

  lemma {:induction false} InnerObeys(v: Visit, end: int, i: nat, t: int, h: seq<Event>, answer: OpenAnswer) returns (inner: seq<Event>)
    requires Settled(v, end) && i < |v.ds| && t % v.ds[i] == 0 && I64_MIN < t < v.max && t + v.ds[i] <= end
    ensures v.Inside(i, t, answer, h).trace == h + inner
    ensures Obeys(v, i + 1, h, inner, v.Inside(i, t, answer, h).goesOn)
    ensures answer == WithChildren && i + 1 < |v.ds| ==>
              && (forall m :: 0 <= m < |inner| && inner[m].Opened? && inner[m].level == i + 1 ==>
                    IsChild(v, Opened(t, i), inner[m].time))
              && (v.Inside(i, t, answer, h).goesOn ==> forall c :: IsChild(v, Opened(t, i), c) ==> Opened(c, i + 1) in inner)
    ensures !(answer == WithChildren && i + 1 < |v.ds|) ==> inner == [] && v.Inside(i, t, answer, h).goesOn
    decreases |v.ds| - i, 0, 0
  {
    inner := [];
    if answer == WithChildren && i + 1 < |v.ds| {
      assert ChildrenFit(v, i, t);
      v.FirstChildMoves(i, t);
      hide Obeys, Settled, IsChild, OpensAll, OpensOnly, Visit.Level;
      inner := LevelObeys(v, end, i + 1, v.FirstChild(i, t), t, h);
      assert v.FirstChild(i, t) + v.ds[i + 1] <= t + v.ds[i];
      OnlyWithin(v, i + 1, t, v.FirstChild(i, t) + v.ds[i + 1], t + v.ds[i], inner);
      ChildrenAreALevel(v, end, i, t, inner, v.Inside(i, t, answer, h).goesOn);
    } else {
      Nothing(v, i + 1, h);
      assert h + [] == h;
    }
  }

  lemma OnlyWithin(v: Visit, i: nat, oldest: int, end: int, later: int, part: seq<Event>)
    requires OpensOnly(v, i, oldest, end, part) && end <= later
    ensures OpensOnly(v, i, oldest, later, part)
  {
  }

  lemma {:induction false} LevelObeys(v: Visit, end: int, i: nat, t: int, oldest: int, hist: seq<Event>) returns (part: seq<Event>)
    requires Settled(v, end) && i < |v.ds| && t % v.ds[i] == 0 && oldest % v.ds[i] == 0 && I64_MIN < oldest <= t
    requires t + v.ds[i] <= end
    ensures v.Level(i, t, oldest, hist).trace == hist + part
    ensures Obeys(v, i, hist, part, v.Level(i, t, oldest, hist).goesOn)
    ensures OpensOnly(v, i, oldest, t + v.ds[i], part)
    ensures v.Level(i, t, oldest, hist).goesOn ==> OpensAll(v, i, oldest, t, part)
    decreases |v.ds| - i, 2 + t - oldest
  {
    hide Visit.Bucket, Obeys, OpensOnly;
    part := BucketObeys(v, end, i, t, hist);
    var (d, here) := (v.ds[i], v.Bucket(i, t, hist));
    if here.goesOn && oldest < t {
      StepDown(oldest, t, d);
      var earlier := LevelObeys(v, end, i, t - d, oldest, here.trace);
      Join(v, i, hist, part, earlier, v.Level(i, t, oldest, hist).goesOn);
      if v.Level(i, t, oldest, hist).goesOn {
        JoinAll(v, i, oldest, t, part, earlier);
      }
      part := part + earlier;
      assert hist + part == here.trace + earlier;
    }
    OnlyOnGrid(v, end, i, t, oldest, hist, part);
  }

  lemma JoinAll(v: Visit, i: nat, oldest: int, t: int, here: seq<Event>, earlier: seq<Event>)
    requires i < |v.ds| && v.ds[i] > 0 && t % v.ds[i] == 0 && OpensAll(v, i, oldest, t - v.ds[i], earlier)
    requires t < v.max ==> Opened(t, i) in here
    ensures OpensAll(v, i, oldest, t, here + earlier)
  {
    forall s | s % v.ds[i] == 0 && oldest <= s <= t && s < v.max ensures Opened(s, i) in here + earlier {
      if s < t {
        StepDown(s, t, v.ds[i]);
      }
    }
  }

  lemma OnlyOnGrid(v: Visit, end: int, i: nat, t: int, oldest: int, hist: seq<Event>, part: seq<Event>)
    requires Settled(v, end) && i < |v.ds| && t % v.ds[i] == 0 && oldest % v.ds[i] == 0 && I64_MIN < oldest <= t
    requires t + v.ds[i] <= end && v.Level(i, t, oldest, hist).trace == hist + part
    ensures OpensOnly(v, i, oldest, t + v.ds[i], part)
  {
    hide Visit.Level, Settled;
    var same := LevelIsClean(v, end, i, t, oldest, hist);
    assert part == (hist + part)[|hist|..] == (hist + same)[|hist|..] == same;
  }
  lemma RootsObey(v: Visit, t: int, oldest: int) returns (part: seq<Event>)
    requires v.ds != [] && Settled(v, t + v.ds[0]) && t % v.ds[0] == 0 && oldest % v.ds[0] == 0
    requires I64_MIN < oldest && v.Moves(t)
    ensures v.Level(0, t, oldest, []).trace == part
    ensures Obeys(v, 0, [], part, v.Level(0, t, oldest, []).goesOn)
    ensures v.Level(0, t, oldest, []).goesOn ==> OpensAll(v, 0, Min(oldest, t), t, part)
  {
    assert v.Valid();
    hide Visit.Bucket, Obeys, Settled;
    if oldest <= t {
      hide Visit.Level, OpensAll, OpensOnly;
      part := LevelObeys(v, t + v.ds[0], 0, t, oldest, []);
      assert [] + part == part;
    } else {
      part := BucketObeys(v, t + v.ds[0], 0, t, []);
      assert [] + part == part;
    }
  }

  lemma WalkObeys(v: Visit, min: i64)
    requires OnLadder(v) && Terminates(min, v.ds)
    ensures var w := FullWalk(v.max, min, v.ds, v.calls);
            && Obeys(v, 0, [], w.trace, w.goesOn)
            && (w.goesOn ==> OpensAll(v, 0, RootStart(v.max, min, v.ds[0]), v.max, w.trace))
  {
    var d := v.ds[0];
    TameLaddersSettle(v, RoundDown(v.max, d) + d);
    EveryLevelIsCoarser(v.ds, 0);
    TopMoves(v);
    hide RoundDown, Visit.Level, Tame, Obeys, RootStart;
    Roots(v.max, min, d, v.ds[|v.ds| - 1]);
    RoundedTime(min, d);
    var part := RootsObey(v, RoundDown(v.max, d), RoundDown(min, d));
    forall s | s % d == 0 && s < v.max ensures s <= RoundDown(v.max, d) {
      RoundedIsLatest(v.max, s, d);
    }
  }

  /**
   * For all callbacks: the walk ends at the first answer to stop; a bucket whose children are declined, or that has
   * none, is closed at once; below the root only children of buckets descended into are opened; and a walk that is
   * not stopped opens every root bucket of the range and all children of all buckets descended into, and closes them.
   */
  lemma CallbacksAreObeyed(max: i64, min: i64, b: BucketType, calls: Callbacks)
    requires Tame(max, DurationsFor(b))
    ensures var ds := DurationsFor(b);
            var v := Visit(ds, max, calls);
            && v.Valid() && Terminates(min, ds)
            && var w := FullWalk(max, min, ds, calls);
            && Obeys(v, 0, [], w.trace, w.goesOn)
            && (w.goesOn ==> OpensAll(v, 0, RootStart(max, min, ds[0]), max, w.trace))
  {
    LadderIsNested(b);
    LadderIsWalkable(b, max, min, calls);
    hide DurationsFor, Obeys, OpensAll;
    WalkObeys(Visit(DurationsFor(b), max, calls), min);
  }
}
