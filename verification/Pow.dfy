/** Proof of work: the chained hash, its measure, and the salt search (pow.rs, pow_generator.rs). */
module Pow {
  import opened Results
  import opened Bytes
  import opened Ids
  import opened Arith
  import XorMetric

  const CHAIN_LENGTH := 5
  const MAX_REPETITIONS := 2
  const ALGO_COUNT := 17

  /** Blake3, and the seventeen hashes of the chain truncated to 32 bytes. */
  datatype Hashes = Hashes(blake3: bytes -> Id, chained: (nat, Id) -> Id)

  /** `apply_chained_hash`. */
  function Chained(hs: Hashes, algoIndex: nat, h: Id): Id {
    hs.chained(algoIndex % ALGO_COUNT, h)
  }

  function Repeat(hs: Hashes, algoIndex: nat, h: Id, times: nat): Id {
    if times == 0 then h else Chained(hs, algoIndex, Repeat(hs, algoIndex, h, times - 1))
  }

  /** One round: the current hash chooses the algorithm and whether it is applied once or twice. */
  function Round(hs: Hashes, h: Id): Id {
    Repeat(hs, h[0], h, 1 + h[1] % MAX_REPETITIONS)
  }

  function Rounds(hs: Hashes, h: Id, n: nat): Id {
    if n == 0 then h else Round(hs, Rounds(hs, h, n - 1))
  }

  function Flag(on: bool, mask: bv8): bv8 {
    if on then mask else 0
  }

  function Pattern(a: bool, b: bool, c: bool, d: bool, e: bool, f: bool, g: bool, h: bool): bv8 {
    Flag(a, 0x80) | Flag(b, 0x40) | Flag(c, 0x20) | Flag(d, 0x10)
    | Flag(e, 0x08) | Flag(f, 0x04) | Flag(g, 0x02) | Flag(h, 0x01)
  }

  /** A byte as eight bits. */
  function Bits(b: byte): bv8 {
    Pattern(b >= 128, b % 128 >= 64, b % 64 >= 32, b % 32 >= 16, b % 16 >= 8, b % 8 >= 4, b % 4 >= 2, b % 2 >= 1)
  }

  function AsKey(s: bytes): (k: XorMetric.key)
    ensures |k| == |s|
  {
    seq(|s|, i requires 0 <= i < |s| => Bits(s[i]))
  }

  /** The leading zero bits of a hash, at most 255. */
  function Difficulty(h: bytes): byte {
    var z := XorMetric.LeadingZeros(AsKey(h));
    if z < 256 then z else 255
  }

  datatype Work = Work(pow: byte, hash: Id)

  function MeasureFromDataHash(hs: Hashes, dataHash: Id, salt: Salt): Work {
    var h := Rounds(hs, hs.blake3(dataHash + salt), CHAIN_LENGTH);
    Work(Difficulty(h), h)
  }

  method PowMeasureFromDataHash(hs: Hashes, dataHash: Id, salt: Salt) returns (w: Work)
    ensures w == MeasureFromDataHash(hs, dataHash, salt)
  {
    var start := hs.blake3(dataHash + salt);
    var current := start;
    for i := 0 to CHAIN_LENGTH
      invariant current == Rounds(hs, start, i)
    {
      var algoIndex := current[0];
      var repetitions := current[1] % MAX_REPETITIONS;
      ghost var before := current;
      for j := 0 to repetitions + 1
        invariant current == Repeat(hs, algoIndex, before, j)
      {
        current := Chained(hs, algoIndex, current);
      }
    }
    var zeros := XorMetric.CountLeadingZeroBits(AsKey(current));
    w := Work(zeros, current);
  }

  function DataHash(hs: Hashes, data: bytes): Id {
    hs.blake3(data)
  }

  function Measure(hs: Hashes, data: bytes, salt: Salt): Work {
    MeasureFromDataHash(hs, DataHash(hs, data), salt)
  }

  // ---------------------------------------------------------------------------------------------
  // The search

  /** A salt with the work it is claimed to measure to. */
  datatype Found = Found(salt: Salt, work: Work)

  predicate Genuine(hs: Hashes, dataHash: Id, f: Found) {
    MeasureFromDataHash(hs, dataHash, f.salt) == f.work
  }

  /** The salt is tried, and none tried before it suffices. */
  ghost predicate IsFirstSufficient(hs: Hashes, powMin: byte, dataHash: Id, salts: seq<Salt>, salt: Salt) {
    exists i :: 0 <= i < |salts| && salts[i] == salt
                && forall k :: 0 <= k < i ==> MeasureFromDataHash(hs, dataHash, salts[k]).pow < powMin
  }

  /** One chunk of attempts: the first salt that suffices, otherwise the best of them all. */
  method RunChunk(hs: Hashes, powMin: byte, dataHash: Id, salts: seq<Salt>) returns (best: Found)
    requires salts != []
    ensures Genuine(hs, dataHash, best) && best.salt in salts
    ensures best.work.pow >= powMin ==> IsFirstSufficient(hs, powMin, dataHash, salts, best.salt)
    ensures best.work.pow < powMin ==>
              forall k :: 0 <= k < |salts| ==> MeasureFromDataHash(hs, dataHash, salts[k]).pow <= best.work.pow
  {
    hide MeasureFromDataHash;
    var w := PowMeasureFromDataHash(hs, dataHash, salts[0]);
    best := Found(salts[0], w);
    if best.work.pow >= powMin {
      return;
    }
    for i := 1 to |salts|
      invariant Genuine(hs, dataHash, best) && best.salt in salts && best.work.pow < powMin
      invariant forall k :: 0 <= k < i ==> MeasureFromDataHash(hs, dataHash, salts[k]).pow <= best.work.pow
    {
      w := PowMeasureFromDataHash(hs, dataHash, salts[i]);
      if w.pow > best.work.pow {
        best := Found(salts[i], w);
        if best.work.pow >= powMin {
          assert salts[i] == best.salt;
          return;
        }
      }
    }
  }

  /** No salt of these chunks suffices. */
  ghost predicate NoneSuffices(hs: Hashes, powMin: byte, dataHash: Id, chunks: seq<seq<Salt>>) {
    forall c, s :: c in chunks && s in c ==> MeasureFromDataHash(hs, dataHash, s).pow < powMin
  }

  /** The salt is the first that suffices in the first chunk that holds one. */
  ghost predicate IsFirstInChunks(hs: Hashes, powMin: byte, dataHash: Id, chunks: seq<seq<Salt>>, salt: Salt) {
    exists i :: 0 <= i < |chunks| && NoneSuffices(hs, powMin, dataHash, chunks[..i])
                && IsFirstSufficient(hs, powMin, dataHash, chunks[i], salt)
  }

  /** The pool: a seed attempt, then chunks in the order they complete, as many as there are until a salt suffices. */
  method Generate(hs: Hashes, powMin: byte, dataHash: Id, seed: Salt, chunks: seq<seq<Salt>>) returns (best: Found)
    requires forall c :: c in chunks ==> c != []
    ensures Genuine(hs, dataHash, best) && (best.salt == seed || exists c :: c in chunks && best.salt in c)
    ensures best.work.pow >= powMin ==>
              best.salt == seed || (MeasureFromDataHash(hs, dataHash, seed).pow < powMin
                                    && IsFirstInChunks(hs, powMin, dataHash, chunks, best.salt))
    ensures best.work.pow < powMin ==>
              MeasureFromDataHash(hs, dataHash, seed).pow <= best.work.pow
              && forall c, s :: c in chunks && s in c ==> MeasureFromDataHash(hs, dataHash, s).pow <= best.work.pow
  {
    hide MeasureFromDataHash, IsFirstSufficient;
    var w := PowMeasureFromDataHash(hs, dataHash, seed);
    best := Found(seed, w);
    if best.work.pow >= powMin {
      return;
    }
    for i := 0 to |chunks|
      invariant Genuine(hs, dataHash, best) && (best.salt == seed || exists c :: c in chunks && best.salt in c)
      invariant MeasureFromDataHash(hs, dataHash, seed).pow <= best.work.pow < powMin
      invariant forall j, s :: 0 <= j < i && s in chunks[j] ==> MeasureFromDataHash(hs, dataHash, s).pow <= best.work.pow
    {
      assert chunks[i] in chunks;
      var chunkBest := RunChunk(hs, powMin, dataHash, chunks[i]);
      if chunkBest.work.pow > best.work.pow {
        best := chunkBest;
      }
      if best.work.pow >= powMin {
        assert NoneSuffices(hs, powMin, dataHash, chunks[..i]);
        return;
      }
    }
  }

  // ---------------------------------------------------------------------------------------------

  /**
   * One round on a trace of hashes: bytes 0 and 1 of the hash it starts with choose one of 17 algorithms, and whether
   * that is applied once or twice.
   */
  ghost predicate IsRound(hs: Hashes, trace: seq<Id>, from: nat, to: nat) {
    && to < |trace| && from < to && to - from == 1 + trace[from][1] % 2
    && forall i :: from <= i < to ==> trace[i + 1] == hs.chained(trace[from][0] % 17, trace[i])
  }

  lemma {:induction false} RepeatTrace(hs: Hashes, algoIndex: nat, h: Id, times: nat) returns (trace: seq<Id>)
    ensures |trace| == times + 1 && trace[0] == h && trace[times] == Repeat(hs, algoIndex, h, times)
    ensures forall i :: 0 <= i < times ==> trace[i + 1] == hs.chained(algoIndex % 17, trace[i])
  {
    if times == 0 {
      trace := [h];
    } else {
      trace := RepeatTrace(hs, algoIndex, h, times - 1);
      trace := trace + [Repeat(hs, algoIndex, h, times)];
    }
  }

  lemma AppendRound(hs: Hashes, trace: seq<Id>, round: seq<Id>)
    requires trace != [] && round != [] && IsRound(hs, round, 0, |round| - 1) && round[0] == trace[|trace| - 1]
    ensures IsRound(hs, trace + round[1..], |trace| - 1, |trace| + |round| - 2)
    ensures forall from: nat, to: nat :: IsRound(hs, trace, from, to) ==> IsRound(hs, trace + round[1..], from, to)
  {
    var all := trace + round[1..];
    assert forall k :: 0 <= k < |round| ==> all[|trace| - 1 + k] == round[k];
  }

  lemma {:induction false} RoundsTrace(hs: Hashes, h: Id, n: nat) returns (trace: seq<Id>, starts: seq<nat>)
    ensures |starts| == n + 1 && trace != [] && starts[0] == 0 && starts[n] == |trace| - 1
    ensures trace[0] == h && trace[|trace| - 1] == Rounds(hs, h, n)
    ensures forall j :: 0 <= j < n ==> IsRound(hs, trace, starts[j], starts[j + 1])
  {
    if n == 0 {
      trace, starts := [h], [0];
    } else {
      trace, starts := RoundsTrace(hs, h, n - 1);
      var x := Rounds(hs, h, n - 1);
      var round := RepeatTrace(hs, x[0], x, 1 + x[1] % 2);
      AppendRound(hs, trace, round);
      trace, starts := trace + round[1..], starts + [|trace| + |round| - 2];
    }
  }

  /**
   * The measured hash is the end of a chain that starts with the hash of data hash and salt and has five rounds, so
   * that five to ten hashes are applied.
   */
  lemma ChainHasFiveRounds(hs: Hashes, dataHash: Id, salt: Salt) returns (trace: seq<Id>, starts: seq<nat>)
    ensures |starts| == 6 && starts[0] == 0 && starts[5] == |trace| - 1 && 5 <= |trace| - 1 <= 10
    ensures trace[0] == hs.blake3(dataHash + salt) && trace[|trace| - 1] == MeasureFromDataHash(hs, dataHash, salt).hash
    ensures forall j :: 0 <= j < 5 ==> IsRound(hs, trace, starts[j], starts[j + 1])
  {
    trace, starts := RoundsTrace(hs, hs.blake3(dataHash + salt), 5);
    assert IsRound(hs, trace, starts[0], starts[1]) && IsRound(hs, trace, starts[1], starts[2]);
    assert IsRound(hs, trace, starts[2], starts[3]) && IsRound(hs, trace, starts[3], starts[4]);
    assert IsRound(hs, trace, starts[4], starts[5]);
  }

  /** A measured pow of p means at least p / 8 leading zero bytes. */
  lemma WorkMeansZeroBytes(h: bytes)
    ensures forall i :: 0 <= i < (Difficulty(h) as int) / 8 && i < |h| ==> h[i] == 0
  {
    var k := AsKey(h);
    XorMetric.LeadingZeroBytes(k);
    forall i | 0 <= i < Difficulty(h) / 8 && i < |h| ensures h[i] == 0 {
      assert i < XorMetric.LeadingZeros(k) / 8;
      assert k[i] == 0;
      ZeroByte(h[i]);
    }
  }

  function Weight(on: bool, w: nat): nat {
    if on then w else 0
  }

  lemma FlagsAddUp(a: bool, b: bool, c: bool, d: bool, e: bool, f: bool, g: bool, h: bool)
    ensures Pattern(a, b, c, d, e, f, g, h) as int
         == Weight(a, 128) + Weight(b, 64) + Weight(c, 32) + Weight(d, 16)
            + Weight(e, 8) + Weight(f, 4) + Weight(g, 2) + Weight(h, 1)
  {
  }

  lemma Halve(b: nat, m: nat)
    requires m > 0
    ensures b % (2 * m) == Weight(b % (2 * m) >= m, m) + b % m
  {
    var (q, r) := (b / (2 * m), b % (2 * m));
    assert b == m * (2 * q) + r;
    if r < m {
      UniqueRemainder(b, m, 2 * q, r);
    } else {
      assert m * (2 * q + 1) == m * (2 * q) + m;
      UniqueRemainder(b, m, 2 * q + 1, r - m);
    }
  }

  lemma DigitsAddUp(b: byte)
    ensures b == Weight(b >= 128, 128) + Weight(b % 128 >= 64, 64) + Weight(b % 64 >= 32, 32) + Weight(b % 32 >= 16, 16)
                 + Weight(b % 16 >= 8, 8) + Weight(b % 8 >= 4, 4) + Weight(b % 4 >= 2, 2) + Weight(b % 2 >= 1, 1)
  {
    hide Weight;
    assert b == Weight(b >= 128, 128) + b % 128 by {
      assert b % 256 == b;
      Halve(b, 128);
    }
    UpperDigits(b);
    LowerDigits(b);
  }

  lemma UpperDigits(b: byte)
    ensures b % 128 == Weight(b % 128 >= 64, 64) + Weight(b % 64 >= 32, 32) + Weight(b % 32 >= 16, 16) + b % 16
  {
    hide Weight;
    Halve(b, 64);
    Halve(b, 32);
    Halve(b, 16);
  }

  lemma LowerDigits(b: byte)
    ensures b % 16 == Weight(b % 16 >= 8, 8) + Weight(b % 8 >= 4, 4) + Weight(b % 4 >= 2, 2) + Weight(b % 2 >= 1, 1)
  {
    hide Weight;
    Halve(b, 8);
    Halve(b, 4);
    Halve(b, 2);
    Halve(b, 1);
    assert b % 1 == 0;
  }

  lemma BitsValue(b: byte)
    ensures Bits(b) as int == b
  {
    hide Pattern, Weight;
    DigitsAddUp(b);
    FlagsAddUp(b >= 128, b % 128 >= 64, b % 64 >= 32, b % 32 >= 16, b % 16 >= 8, b % 8 >= 4, b % 4 >= 2, b % 2 >= 1);
  }

  /** What a pow says: the hash, read as one number, is below 2^(256 - pow) and, save for the cap of 255, no lower bound is skipped. */
  lemma PowIsMagnitude(h: Id)
    ensures BeValue(h) < Pow2(256 - Difficulty(h))
    ensures Difficulty(h) < 255 ==> Pow2(255 - Difficulty(h)) <= BeValue(h)
  {
    XorMetric.LeadingZerosAreMagnitude(AsKey(h));
    assert XorMetric.AsBytes(AsKey(h)) == h by {
      forall i | 0 <= i < |h| ensures XorMetric.AsBytes(AsKey(h))[i] == h[i] {
        BitsValue(h[i]);
      }
    }
  }

  lemma ZeroByte(b: byte)
    ensures Bits(b) == 0 <==> b == 0
  {
  }
}
