/** HyperLogLog registers under insertion and merging (hyper_log_log.rs). */
module HyperLogLog {
  import opened Bytes
  import opened Ids

  const NUM_REGISTERS := 64

  type Registers = s: seq<byte> | |s| == NUM_REGISTERS witness seq(NUM_REGISTERS, _ => 0)

  type Hasher = bytes -> Id

  function BitLength(n: nat): nat {
    if n == 0 then 0 else 1 + BitLength(n / 2)
  }

  lemma {:induction false} BitLengthBound(n: nat, k: nat)
    requires n < Pow2(k)
    ensures BitLength(n) <= k
  {
    if n > 0 {
      BitLengthBound(n / 2, k - 1);
    }
  }

  lemma {:induction false} BitLengthIsMagnitude(n: nat)
    ensures n < Pow2(BitLength(n)) && (n > 0 ==> Pow2(BitLength(n) - 1) <= n)
  {
    if n > 0 {
      BitLengthIsMagnitude(n / 2);
    }
  }

  /** `u64::leading_zeros` plus one, of bytes 1 to 8 of the hash. */
  function Rho(hash: Id): (r: byte)
    ensures 1 <= r <= 65
  {
    var n := BeValue(hash[1..9]);
    BytesInBits(8);
    BitLengthBound(n, 64);
    64 - BitLength(n) + 1
  }

  function Index(hash: Id): (i: nat)
    ensures i < NUM_REGISTERS
  {
    hash[0] % NUM_REGISTERS
  }

  function Max(a: byte, b: byte): byte {
    if b > a then b else a
  }

  function Insert(h: Hasher, regs: Registers, data: bytes): Registers {
    regs[Index(h(data)) := Max(regs[Index(h(data))], Rho(h(data)))]
  }

  function Merge(a: Registers, b: Registers): Registers {
    seq(NUM_REGISTERS, i requires 0 <= i < NUM_REGISTERS => Max(a[i], b[i]))
  }

  function Empty(): Registers {
    seq(NUM_REGISTERS, _ => 0)
  }

  /** The sketch of a sequence of items, inserted in order. */
  function Sketch(h: Hasher, items: seq<bytes>): Registers {
    if items == [] then Empty() else Insert(h, Sketch(h, items[..|items| - 1]), items[|items| - 1])
  }

  /**
   * What an item contributes: its register is the first byte of its hash without the two highest bits, and its rho
   * places bytes 1 to 8, read as one number, between two powers of two.
   */
  lemma RhoIsMagnitude(hash: Id)
    ensures var n := BeValue(hash[1..9]);
            n < Pow2(65 - Rho(hash)) && (n > 0 ==> Pow2(64 - Rho(hash)) <= n) && (n == 0 <==> Rho(hash) == 65)
    ensures exists q :: 0 <= q < 4 && hash[0] == 64 * q + Index(hash)
  {
    BytesInBits(8);
    BitLengthIsMagnitude(BeValue(hash[1..9]));
    assert hash[0] == 64 * (hash[0] / 64) + Index(hash);
  }

  class HyperLogLog {
    const registers: array<byte>

    ghost predicate Valid() {
      registers.Length == NUM_REGISTERS
    }

    constructor ()
      ensures Valid() && fresh(registers) && registers[..] == Empty()
    {
      registers := new byte[NUM_REGISTERS](_ => 0);
    }

    method InsertItem(h: Hasher, data: bytes)
      requires Valid()
      modifies registers
      ensures registers[..] == Insert(h, old(registers[..]), data)
    {
      var i, r := Index(h(data)), Rho(h(data));
      if r > registers[i] {
        registers[i] := r;
      }
    }

    method MergeFrom(other: HyperLogLog)
      requires Valid() && other.Valid()
      modifies registers
      ensures registers[..] == Merge(old(registers[..]), old(other.registers[..]))
    {
      for i := 0 to NUM_REGISTERS
        invariant forall j :: 0 <= j < i ==> registers[j] == Max(old(registers[j]), old(other.registers[j]))
        invariant forall j :: i <= j < NUM_REGISTERS ==> registers[j] == old(registers[j])
        invariant forall j :: i <= j < NUM_REGISTERS ==> other.registers[j] == old(other.registers[j])
      {
        if other.registers[i] > registers[i] {
          registers[i] := other.registers[i];
        }
      }
    }
  }

  // ---------------------------------------------------------------------------------------------

  /** What register i means: the greatest rho among the items that select it, zero when none does. */
  ghost predicate IsGreatestRho(h: Hasher, items: set<bytes>, i: nat, v: byte) {
    && (forall x :: x in items && Index(h(x)) == i ==> Rho(h(x)) <= v)
    && (v == 0 || exists x :: x in items && Index(h(x)) == i && Rho(h(x)) == v)
  }

  function ItemSet(items: seq<bytes>): set<bytes> {
    set x | x in items
  }

  lemma {:induction false} SketchHoldsGreatestRho(h: Hasher, items: seq<bytes>)
    ensures forall i :: 0 <= i < NUM_REGISTERS ==> IsGreatestRho(h, ItemSet(items), i, Sketch(h, items)[i])
  {
    if items != [] {
      var n := |items| - 1;
      var x, before := items[n], Sketch(h, items[..n]);
      SketchHoldsGreatestRho(h, items[..n]);
      assert ItemSet(items) == ItemSet(items[..n]) + {x} by {
        assert items == items[..n] + [x];
      }
      forall i | 0 <= i < NUM_REGISTERS ensures IsGreatestRho(h, ItemSet(items), i, Sketch(h, items)[i]) {
        assert IsGreatestRho(h, ItemSet(items[..n]), i, before[i]);
      }
    }
  }

  /** The sketch depends on which items were inserted, not on their order or repetition. */
  lemma SketchDependsOnSet(h: Hasher, a: seq<bytes>, b: seq<bytes>)
    requires ItemSet(a) == ItemSet(b)
    ensures Sketch(h, a) == Sketch(h, b)
  {
    SketchHoldsGreatestRho(h, a);
    SketchHoldsGreatestRho(h, b);
    forall i | 0 <= i < NUM_REGISTERS ensures Sketch(h, a)[i] == Sketch(h, b)[i] {
      assert IsGreatestRho(h, ItemSet(a), i, Sketch(h, a)[i]);
      assert IsGreatestRho(h, ItemSet(a), i, Sketch(h, b)[i]);
    }
  }

  /** No register of a sketch exceeds 65. */
  lemma {:induction false} SketchIsBounded(h: Hasher, items: seq<bytes>)
    ensures forall i :: 0 <= i < NUM_REGISTERS ==> Sketch(h, items)[i] <= 65
  {
    if items != [] {
      SketchIsBounded(h, items[..|items| - 1]);
    }
  }

  lemma InsertIntoMerge(h: Hasher, a: Registers, b: Registers, x: bytes)
    ensures Merge(a, Insert(h, b, x)) == Insert(h, Merge(a, b), x)
  {
    hide Rho, Index;
  }

  /** Merging two sketches is sketching both item sequences. */
  lemma {:induction false} MergeIsConcatenation(h: Hasher, a: seq<bytes>, b: seq<bytes>)
    ensures Merge(Sketch(h, a), Sketch(h, b)) == Sketch(h, a + b)
  {
    if b == [] {
      assert a + b == a;
      assert Merge(Sketch(h, a), Empty()) == Sketch(h, a);
    } else {
      var n := |b| - 1;
      MergeIsConcatenation(h, a, b[..n]);
      assert (a + b)[..|a| + n] == a + b[..n] && (a + b)[|a| + n] == b[n];
      InsertIntoMerge(h, Sketch(h, a), Sketch(h, b[..n]), b[n]);
    }
  }

  /** Merge is a semilattice operation with the empty sketch as its unit. */
  lemma MergeIsSemilattice(a: Registers, b: Registers, c: Registers)
    ensures Merge(a, b) == Merge(b, a)
    ensures Merge(a, Merge(b, c)) == Merge(Merge(a, b), c)
    ensures Merge(a, a) == a && Merge(a, Empty()) == a
  {
  }
}
