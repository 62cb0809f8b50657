/** The scatter-gather buffer (bytes_gatherer.rs). */
module BytesGatherer {
  import opened Bytes
  import opened Sequences

  function Concat(segments: seq<bytes>): bytes {
    if segments == [] then [] else Concat(segments[..|segments| - 1]) + segments[|segments| - 1]
  }

  lemma {:induction false} ConcatAppend(a: seq<bytes>, b: seq<bytes>)
    ensures Concat(a + b) == Concat(a) + Concat(b)
  {
    if b == [] {
      assert a + b == a;
    } else {
      var n := |b| - 1;
      ConcatAppend(a, b[..n]);
      assert (a + b)[..|a| + n] == a + b[..n] && (a + b)[|a| + n] == b[n];
    }
  }

  lemma ConcatPush(segments: seq<bytes>, s: bytes)
    ensures Concat(segments + [s]) == Concat(segments) + s
  {
    assert (segments + [s])[..|segments|] == segments;
  }

  ghost predicate NoneEmpty(segments: seq<bytes>) {
    forall i :: 0 <= i < |segments| ==> segments[i] != []
  }

  /** Flushing the scratchpad: it becomes a segment unless it is empty. */
  function Flushed(segments: seq<bytes>, current: bytes): seq<bytes> {
    if current == [] then segments else segments + [current]
  }

  lemma FlushedKeepsBytes(segments: seq<bytes>, current: bytes)
    ensures Concat(Flushed(segments, current)) == Concat(segments) + current
    ensures NoneEmpty(segments) ==> NoneEmpty(Flushed(segments, current))
  {
    ConcatPush(segments, current);
  }

  // ---------------------------------------------------------------------------------------------
  // compact, as a fold over the segments

  /** Segments already emitted, and the small ones gathered since the last large one. */
  datatype Fold = Fold(out: seq<bytes>, acc: bytes)

  function CompactStep(f: Fold, seg: bytes, threshold: nat): Fold {
    if |seg| < threshold then Fold(f.out, f.acc + seg) else Fold(Flushed(f.out, f.acc) + [seg], [])
  }

  function CompactFold(segments: seq<bytes>, threshold: nat): Fold {
    if segments == [] then Fold([], [])
    else CompactStep(CompactFold(segments[..|segments| - 1], threshold), segments[|segments| - 1], threshold)
  }

  function Compacted(segments: seq<bytes>, threshold: nat): seq<bytes> {
    var f := CompactFold(segments, threshold);
    Flushed(f.out, f.acc)
  }

  function Large(segments: seq<bytes>, threshold: nat): seq<bytes> {
    if segments == [] then []
    else
      var last := segments[|segments| - 1];
      Large(segments[..|segments| - 1], threshold) + (if |last| >= threshold then [last] else [])
  }

  ghost predicate NoSmallNeighbours(segments: seq<bytes>, threshold: nat) {
    forall i :: 0 <= i < |segments| - 1 ==> |segments[i]| >= threshold || |segments[i + 1]| >= threshold
  }

  /** What the fold keeps after every segment. */
  ghost predicate FoldInvariant(f: Fold, segments: seq<bytes>, threshold: nat) {
    && Concat(f.out) + f.acc == Concat(segments)
    && NoneEmpty(f.out)
    && NoSmallNeighbours(f.out, threshold)
    && (f.out != [] ==> |f.out[|f.out| - 1]| >= threshold)
  }

  lemma StepKeepsInvariant(f: Fold, segments: seq<bytes>, s: bytes, threshold: nat)
    requires FoldInvariant(f, segments, threshold) && s != []
    ensures FoldInvariant(CompactStep(f, s, threshold), segments + [s], threshold)
  {
    hide Concat;
    FlushedKeepsBytes(f.out, f.acc);
    ConcatPush(segments, s);
    ConcatPush(Flushed(f.out, f.acc), s);
    Associate(Concat(f.out), f.acc, s);
  }

  lemma {:induction false} CompactFoldInvariant(segments: seq<bytes>, threshold: nat)
    requires NoneEmpty(segments)
    ensures FoldInvariant(CompactFold(segments, threshold), segments, threshold)
  {
    if segments != [] {
      var n := |segments| - 1;
      CompactFoldInvariant(segments[..n], threshold);
      StepKeepsInvariant(CompactFold(segments[..n], threshold), segments[..n], segments[n], threshold);
      assert segments == segments[..n] + [segments[n]];
    }
  }

  /** Compacting keeps the bytes, stores no empty segment and leaves no two small neighbours. */
  lemma CompactKeepsBytes(segments: seq<bytes>, threshold: nat)
    requires NoneEmpty(segments)
    ensures Concat(Compacted(segments, threshold)) == Concat(segments)
    ensures NoneEmpty(Compacted(segments, threshold))
    ensures NoSmallNeighbours(Compacted(segments, threshold), threshold)
  {
    var f := CompactFold(segments, threshold);
    CompactFoldInvariant(segments, threshold);
    FlushedKeepsBytes(f.out, f.acc);
  }

  /** a is what is left of b after dropping some elements. */
  predicate Subsequence(a: seq<bytes>, b: seq<bytes>) {
    if a == [] then true
    else if b == [] then false
    else Subsequence(a, b[..|b| - 1]) || (a[|a| - 1] == b[|b| - 1] && Subsequence(a[..|a| - 1], b[..|b| - 1]))
  }

  lemma SubsequencePush(a: seq<bytes>, b: seq<bytes>, x: bytes)
    requires Subsequence(a, b)
    ensures Subsequence(a, b + [x]) && Subsequence(a + [x], b + [x])
  {
    assert (b + [x])[..|b|] == b && (a + [x])[..|a|] == a;
  }

  /** Every large segment comes through intact and in order. */
  lemma {:induction false} LargeSegmentsSurvive(segments: seq<bytes>, threshold: nat)
    ensures Subsequence(Large(segments, threshold), CompactFold(segments, threshold).out)
    ensures Subsequence(Large(segments, threshold), Compacted(segments, threshold))
  {
    var f := CompactFold(segments, threshold);
    if segments != [] {
      var n := |segments| - 1;
      var before := CompactFold(segments[..n], threshold);
      LargeSegmentsSurvive(segments[..n], threshold);
      SubsequencePush(Large(segments[..n], threshold), Flushed(before.out, before.acc), segments[n]);
      assert Large(segments[..n], threshold) + [] == Large(segments[..n], threshold);
    }
    SubsequencePush(Large(segments, threshold), f.out, f.acc);
  }

  /** The fold over segments that need no merging: a small last one is still held back. */
  function Unmerged(segments: seq<bytes>, threshold: nat): Fold {
    var n := |segments| - 1;
    if segments == [] || |segments[n]| >= threshold then Fold(segments, []) else Fold(segments[..n], segments[n])
  }

  lemma UnmergedStep(segments: seq<bytes>, s: bytes, threshold: nat)
    requires NoneEmpty(segments)
    requires segments == [] || |segments[|segments| - 1]| >= threshold || |s| >= threshold
    ensures CompactStep(Unmerged(segments, threshold), s, threshold) == Unmerged(segments + [s], threshold)
  {
    var n := |segments| - 1;
    assert (segments + [s])[..|segments|] == segments && [] + s == s;
    if segments != [] && |segments[n]| < threshold {
      assert segments[..n] + [segments[n]] == segments;
    }
  }

  lemma Front(segments: seq<bytes>, threshold: nat)
    requires NoneEmpty(segments) && NoSmallNeighbours(segments, threshold) && segments != []
    ensures var n := |segments| - 1;
            var front := segments[..n];
            && NoneEmpty(front) && NoSmallNeighbours(front, threshold) && front + [segments[n]] == segments
            && (front == [] || |front[|front| - 1]| >= threshold || |segments[n]| >= threshold)
  {
    var n := |segments| - 1;
    if n > 0 {
      assert |segments[n - 1]| >= threshold || |segments[n - 1 + 1]| >= threshold;
    }
  }

  lemma {:induction false} FoldOfUnmerged(segments: seq<bytes>, threshold: nat)
    requires NoneEmpty(segments) && NoSmallNeighbours(segments, threshold)
    ensures CompactFold(segments, threshold) == Unmerged(segments, threshold)
  {
    if segments != [] {
      hide Unmerged, CompactStep, NoneEmpty, NoSmallNeighbours;
      var n := |segments| - 1;
      Front(segments, threshold);
      FoldOfUnmerged(segments[..n], threshold);
      UnmergedStep(segments[..n], segments[n], threshold);
    }
  }

  /** A buffer with no small neighbours is left as it is. */
  lemma CompactOfCompact(segments: seq<bytes>, threshold: nat)
    requires NoneEmpty(segments) && NoSmallNeighbours(segments, threshold)
    ensures Compacted(segments, threshold) == segments
  {
    hide Unmerged, CompactFold, Flushed;
    FoldOfUnmerged(segments, threshold);
    UnmergedFlushes(segments, threshold);
  }

  lemma UnmergedFlushes(segments: seq<bytes>, threshold: nat)
    requires NoneEmpty(segments)
    ensures var f := Unmerged(segments, threshold); Flushed(f.out, f.acc) == segments
  {
    if segments != [] {
      assert segments == segments[..|segments| - 1] + [segments[|segments| - 1]];
    }
  }

  /** Every small segment that is left has a large one before it, except perhaps the first. */
  lemma {:induction false} CompactBoundsFragments(segments: seq<bytes>, threshold: nat)
    ensures |CompactFold(segments, threshold).out| <= 2 * |Large(segments, threshold)|
    ensures |Compacted(segments, threshold)| <= 2 * |Large(segments, threshold)| + 1
  {
    if segments != [] {
      CompactBoundsFragments(segments[..|segments| - 1], threshold);
    }
  }

  /** Compacting twice is compacting once. */
  lemma CompactIsIdempotent(segments: seq<bytes>, threshold: nat)
    requires NoneEmpty(segments)
    ensures Compacted(Compacted(segments, threshold), threshold) == Compacted(segments, threshold)
  {
    CompactKeepsBytes(segments, threshold);
    CompactOfCompact(Compacted(segments, threshold), threshold);
  }

  // ---------------------------------------------------------------------------------------------

  datatype Operation = Put(small: bytes) | Attach(blob: bytes) | Absorb(others: seq<bytes>, scratch: bytes) | Squeeze(threshold: nat)

  datatype Buffer = Buffer(segments: seq<bytes>, current: bytes)

  /** One operation on the buffer's fields: the state each method of the class is proved to reach. */
  function Apply(b: Buffer, op: Operation): Buffer {
    match op
    case Put(s) => b.(current := b.current + s)
    case Attach(s) => if s == [] then b else Buffer(Flushed(b.segments, b.current) + [s], [])
    case Absorb(segs, scratch) =>
      if segs == [] then b.(current := b.current + scratch)
      else Buffer(Flushed(b.segments, b.current) + Flushed(segs, scratch), [])
    case Squeeze(threshold) => Buffer(Compacted(Flushed(b.segments, b.current), threshold), [])
  }

  class BytesGatherer {
    var segments: seq<bytes>
    var current: bytes

    ghost predicate Valid()
      reads this
    {
      NoneEmpty(segments)
    }

    /** The byte string the buffer stands for. */
    ghost function Contents(): bytes
      reads this
    {
      Concat(segments) + current
    }

    /** The fields, as one value. */
    ghost function State(): Buffer
      reads this
    {
      Buffer(segments, current)
    }

    constructor ()
      ensures Valid() && Contents() == [] && State() == Buffer([], [])
    {
      segments, current := [], [];
    }

    constructor FromBytes(bs: bytes)
      ensures Valid() && Contents() == bs && State() == Apply(Buffer([], []), Attach(bs))
    {
      segments, current := [], [];
      new;
      PutBytes(bs);
    }

    /** put_u8, put_u16, put_u32 and put_u64 write big-endian bytes to the scratchpad. */
    method PutBigEndian(v: nat, width: nat)
      requires Valid() && v < Pow256(width)
      modifies this
      ensures Valid() && Contents() == old(Contents()) + BeBytes(v, width)
      ensures State() == Apply(old(State()), Put(BeBytes(v, width)))
    {
      PutSlice(BeBytes(v, width));
    }

    method PutSlice(s: bytes)
      requires Valid()
      modifies this
      ensures Valid() && Contents() == old(Contents()) + s
      ensures State() == Apply(old(State()), Put(s))
    {
      current := current + s;
    }

    method Flush()
      requires Valid()
      modifies this
      ensures Valid() && Contents() == old(Contents()) && current == []
      ensures segments == Flushed(old(segments), old(current))
    {
      FlushedKeepsBytes(segments, current);
      if current != [] {
        segments := segments + [current];
        current := [];
      }
    }

    method PutBytes(bs: bytes)
      requires Valid()
      modifies this
      ensures Valid() && Contents() == old(Contents()) + bs
      ensures State() == Apply(old(State()), Attach(bs))
    {
      if bs == [] {
        return;
      }
      Flush();
      ConcatPush(segments, bs);
      segments := segments + [bs];
    }

    /** Takes over another buffer, which is consumed. */
    method PutBytesGatherer(other: BytesGatherer)
      requires other != this && Valid() && other.Valid()
      modifies this, other
      ensures Valid() && Contents() == old(Contents()) + old(other.Contents())
      ensures State() == Apply(old(State()), Absorb(old(other.segments), old(other.current)))
    {
      if other.segments == [] {
        if other.current != [] {
          current := current + other.current;
        }
        return;
      }
      other.Flush();
      Flush();
      ConcatAppend(segments, other.segments);
      segments := segments + other.segments;
    }

    method IsEmpty() returns (r: bool)
      requires Valid()
      ensures r <==> Contents() == []
    {
      r := segments == [] && current == [];
      if segments != [] {
        ConcatPush(segments[..|segments| - 1], segments[|segments| - 1]);
      }
    }

    method Len() returns (n: nat)
      requires Valid()
      ensures n == |Contents()|
    {
      n := 0;
      for i := 0 to |segments|
        invariant n == |Concat(segments[..i])|
      {
        assert segments[..i + 1] == segments[..i] + [segments[i]];
        ConcatPush(segments[..i], segments[i]);
        n := n + |segments[i]|;
      }
      assert segments[..|segments|] == segments;
      n := n + |current|;
    }

    method Compact(threshold: nat)
      requires Valid()
      modifies this
      ensures Valid() && Contents() == old(Contents())
      ensures State() == Apply(old(State()), Squeeze(threshold))
    {
      Flush();
      var out: seq<bytes> := [];
      var acc: bytes := [];
      for i := 0 to |segments|
        invariant Fold(out, acc) == CompactFold(segments[..i], threshold)
        invariant segments == Flushed(old(segments), old(current)) && current == []
      {
        var seg := segments[i];
        assert segments[..i + 1][..i] == segments[..i];
        if |seg| < threshold {
          acc := acc + seg;
        } else {
          if acc != [] {
            out := out + [acc];
            acc := [];
          }
          out := out + [seg];
        }
      }
      assert segments[..|segments|] == segments;
      CompactKeepsBytes(segments, threshold);
      if acc != [] {
        out := out + [acc];
      }
      segments := out;
    }

    method Finish() returns (out: seq<bytes>)
      requires Valid()
      modifies this
      ensures NoneEmpty(out) && Concat(out) == old(Contents())
      ensures out == Flushed(old(segments), old(current))
    {
      Flush();
      out := segments;
    }

    method ToBytes() returns (out: bytes)
      requires Valid()
      modifies this
      ensures out == old(Contents())
    {
      Flush();
      if |segments| == 1 {
        assert segments == [] + [segments[0]];
        ConcatPush([], segments[0]);
        return segments[0];
      }
      out := [];
      ghost var all := segments;
      for i := 0 to |segments|
        invariant segments == all && current == []
        invariant out == Concat(segments[..i])
      {
        assert segments[..i + 1] == segments[..i] + [segments[i]];
        ConcatPush(segments[..i], segments[i]);
        out := out + segments[i];
      }
      assert segments[..|segments|] == segments;
    }
  }

  // ---------------------------------------------------------------------------------------------
  // Runs

  function Added(op: Operation): bytes {
    match op
    case Put(s) => s case Attach(s) => s case Absorb(segs, scratch) => Value(Buffer(segs, scratch)) case Squeeze(_) => []
  }

  function RunAll(ops: seq<Operation>): Buffer {
    if ops == [] then Buffer([], []) else Apply(RunAll(ops[..|ops| - 1]), ops[|ops| - 1])
  }

  function AddedBy(ops: seq<Operation>): bytes {
    if ops == [] then [] else AddedBy(ops[..|ops| - 1]) + Added(ops[|ops| - 1])
  }

  /** The byte string a buffer stands for. */
  function Value(b: Buffer): bytes {
    Concat(b.segments) + b.current
  }

  lemma PutAppends(b: Buffer, s: bytes)
    ensures Value(b.(current := b.current + s)) == Value(b) + s
  {
    Associate(Concat(b.segments), b.current, s);
  }

  lemma AttachAppends(b: Buffer, s: bytes)
    requires NoneEmpty(b.segments)
    ensures var c := Apply(b, Attach(s)); NoneEmpty(c.segments) && Value(c) == Value(b) + s
  {
    hide Concat;
    FlushedKeepsBytes(b.segments, b.current);
    ConcatPush(Flushed(b.segments, b.current), s);
  }

  lemma AbsorbAppends(b: Buffer, segs: seq<bytes>, scratch: bytes)
    requires NoneEmpty(b.segments) && NoneEmpty(segs)
    ensures var c := Apply(b, Absorb(segs, scratch));
            NoneEmpty(c.segments) && Value(c) == Value(b) + Value(Buffer(segs, scratch))
  {
    if segs == [] {
      assert Value(Buffer(segs, scratch)) == scratch;
      PutAppends(b, scratch);
    } else {
      hide Concat;
      FlushedKeepsBytes(b.segments, b.current);
      FlushedKeepsBytes(segs, scratch);
      ConcatAppend(Flushed(b.segments, b.current), Flushed(segs, scratch));
    }
  }

  lemma SqueezeKeeps(b: Buffer, threshold: nat)
    requires NoneEmpty(b.segments)
    ensures var c := Apply(b, Squeeze(threshold)); NoneEmpty(c.segments) && Value(c) == Value(b)
  {
    hide Concat, Compacted;
    FlushedKeepsBytes(b.segments, b.current);
    CompactKeepsBytes(Flushed(b.segments, b.current), threshold);
  }

  /** Any run of operations is appending to one byte string, and never stores an empty segment. */
  lemma {:induction false} RunsRefineAppending(ops: seq<Operation>)
    requires forall op :: op in ops && op.Absorb? ==> NoneEmpty(op.others)
    ensures Value(RunAll(ops)) == AddedBy(ops) && NoneEmpty(RunAll(ops).segments)
  {
    if ops != [] {
      var n := |ops| - 1;
      RunsRefineAppending(ops[..n]);
      var b := RunAll(ops[..n]);
      hide Value, NoneEmpty, Concat, Compacted, Flushed;
      match ops[n] {
        case Put(s) => PutAppends(b, s);
        case Attach(s) => AttachAppends(b, s);
        case Absorb(segs, scratch) => AbsorbAppends(b, segs, scratch);
        case Squeeze(threshold) => SqueezeKeeps(b, threshold);
      }
    }
  }
}
