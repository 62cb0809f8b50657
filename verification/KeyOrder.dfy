/** The byte order of an ordered key-value keyspace, and scanning one in that order. */
module KeyOrder {
  import opened Bytes

  lemma {:induction false} LexTransitive(a: bytes, b: bytes, c: bytes)
    requires LexLess(a, b) && LexLess(b, c)
    ensures LexLess(a, c)
  {
    if a != [] && a[0] == b[0] == c[0] {
      LexTransitive(a[1..], b[1..], c[1..]);
    }
  }

  lemma {:induction false} LexTotal(a: bytes, b: bytes)
    ensures LexLess(a, b) || LexLess(b, a) || a == b
    ensures !(LexLess(a, b) && LexLess(b, a))
    ensures !LexLess(a, a)
  {
    if a != [] {
      LexTotal(a[1..], a[1..]);
    }
    if a != [] && b != [] && a[0] == b[0] {
      LexTotal(a[1..], b[1..]);
      assert a == [a[0]] + a[1..] && b == [b[0]] + b[1..];
    }
  }

  ghost predicate IsLeast(k: bytes, keys: set<bytes>) {
    k in keys && forall j :: j in keys && j != k ==> LexLess(k, j)
  }

  ghost predicate Ascending(keys: seq<bytes>) {
    forall i, j :: 0 <= i < j < |keys| ==> LexLess(keys[i], keys[j])
  }

  function KeySet(keys: seq<bytes>): set<bytes> {
    set k | k in keys
  }

  /** The keys of a set in ascending order: the order in which a keyspace is iterated. */
  method SortKeys(keys: set<bytes>) returns (sorted: seq<bytes>)
    ensures Ascending(sorted) && KeySet(sorted) == keys
  {
    sorted := [];
    var rest := keys;
    while rest != {}
      invariant Ascending(sorted) && KeySet(sorted) + rest == keys && KeySet(sorted) !! rest
      invariant forall k, j :: k in sorted && j in rest ==> LexLess(k, j)
      decreases rest
    {
      var k := TakeLeast(rest);
      assert KeySet(sorted + [k]) == KeySet(sorted) + {k};
      sorted := sorted + [k];
      rest := rest - {k};
    }
  }

  method TakeLeast(keys: set<bytes>) returns (k: bytes)
    requires keys != {}
    ensures IsLeast(k, keys)
  {
    var rest := keys;
    k :| k in rest;
    rest := rest - {k};
    while rest != {}
      invariant rest <= keys && k in keys && k !in rest
      invariant forall j :: j in keys - rest && j != k ==> LexLess(k, j)
      decreases rest
    {
      var j :| j in rest;
      LexTotal(j, k);
      if LexLess(j, k) {
        forall i | i in keys - rest && i != k ensures LexLess(j, i) {
          LexTransitive(j, k, i);
        }
        k := j;
      }
      rest := rest - {j};
    }
  }

  /** There is only one ascending arrangement of a set. */
  lemma {:induction false} AscendingIsUnique(a: seq<bytes>, b: seq<bytes>)
    requires Ascending(a) && Ascending(b) && KeySet(a) == KeySet(b)
    ensures a == b
  {
    if b != [] {
      assert b[0] in KeySet(b);
    }
    if a != [] {
      assert a[0] in KeySet(a);
      FirstIsLeast(a, b[0]);
      FirstIsLeast(b, a[0]);
      LexTotal(a[0], b[0]);
      TailKeys(a);
      TailKeys(b);
      AscendingIsUnique(a[1..], b[1..]);
      assert a == [a[0]] + a[1..] && b == [b[0]] + b[1..];
    }
  }

  lemma FirstIsLeast(a: seq<bytes>, k: bytes)
    requires Ascending(a) && k in a
    ensures k == a[0] || LexLess(a[0], k)
  {
  }

  lemma TailKeys(a: seq<bytes>)
    requires Ascending(a) && a != []
    ensures KeySet(a[1..]) == KeySet(a) - {a[0]}
  {
    assert a == [a[0]] + a[1..];
    LexTotal(a[0], a[0]);
    assert a[0] !in a[1..];
  }
}
