/**
 * What `LSTree.getKeyedComponents` returns, stated declaratively: the ids
 * 0..n-1 grouped by their union-find representative.
 */
module Components {
  import opened Results
  import opened JavaLang
  import opened UnionFinds

  /** Every id 0..n-1 is an element of the union-find. */
  predicate CoversIds(rep: map<int32, int32>, n: int32)
  {
    forall i: int32 | 0 <= i < n :: i in rep
  }

  /** The representatives of the ids 0..n-1. */
  function Keys(rep: map<int32, int32>, n: int32): set<int32>
    requires CoversIds(rep, n)
  {
    set i: int32 | 0 <= i < n :: rep[i]
  }

  /** Each representative of an id below n, mapped to the ids below n it represents. */
  function Keyed(rep: map<int32, int32>, n: int32): map<int32, set<int32>>
    requires CoversIds(rep, n)
  {
    map k | k in Keys(rep, n) :: set i: int32 | 0 <= i < n && rep[i] == k
  }

  /** The loop of getKeyedComponents: a missing id throws, otherwise the grouping. */
  function KeyedComponents(rep: map<int32, int32>, n: int32): (r: Result<map<int32, set<int32>>>)
    ensures r.Err? <==> !CoversIds(rep, n)
    ensures r.Err? ==> r.error == NotInUnionFind
  {
    if CoversIds(rep, n) then Ok(Keyed(rep, n)) else Err(NotInUnionFind)
  }

  /**
   * The result is a partition of 0..n-1 into the union-find's classes: each
   * id is in the set keyed by its representative and in no other, no set is
   * empty, and two ids share a set exactly when they share a representative.
   * With a well-formed union-find every key is a representative.
   */
  lemma KeyedIsPartition(rep: map<int32, int32>, n: int32)
    requires CoversIds(rep, n)
    ensures forall i: int32 | 0 <= i < n :: rep[i] in Keyed(rep, n) && i in Keyed(rep, n)[rep[i]]
    ensures forall k, i | k in Keyed(rep, n) && i in Keyed(rep, n)[k] :: 0 <= i < n && rep[i] == k
    ensures forall k | k in Keyed(rep, n) :: Keyed(rep, n)[k] != {}
    ensures forall i: int32, j: int32 | 0 <= i < n && 0 <= j < n ::
              (exists k :: k in Keyed(rep, n) && i in Keyed(rep, n)[k] && j in Keyed(rep, n)[k]) <==> rep[i] == rep[j]
    ensures IsRepMap(rep) ==> forall k | k in Keyed(rep, n) :: k in rep && rep[k] == k
  {
    var m := Keyed(rep, n);
    forall k | k in m
      ensures m[k] != {}
    {
      var i: int32 :| 0 <= i < n && rep[i] == k;
      assert i in m[k];
    }
    forall i: int32, j: int32 | 0 <= i < n && 0 <= j < n && rep[i] == rep[j]
      ensures exists k :: k in m && i in m[k] && j in m[k]
    {
      assert rep[i] in m && i in m[rep[i]] && j in m[rep[i]];
    }
    if IsRepMap(rep) {
      forall k | k in m
        ensures k in rep && rep[k] == k
      {
        var i: int32 :| 0 <= i < n && rep[i] == k;
        RepIsRoot(rep, i);
      }
    }
  }

  /** Adding the next id to the grouping: the step of the source's loop. */
  lemma KeyedStep(rep: map<int32, int32>, n: int32)
    requires 0 <= n < 0x7fff_ffff && CoversIds(rep, n + 1)
    ensures CoversIds(rep, n)
    ensures var before := Keyed(rep, n);
            var members := if rep[n] in before then before[rep[n]] else {};
            Keyed(rep, n + 1) == before[rep[n] := members + {n}]
  {
    var before := Keyed(rep, n);
    var after := Keyed(rep, n + 1);
    var c := rep[n];
    var members := if c in before then before[c] else {};
    var expected := before[c := members + {n}];
    assert Keys(rep, n + 1) == Keys(rep, n) + {c};
    forall k | k in after
      ensures k in expected && after[k] == expected[k]
    {
      if k == c {
        assert after[k] == members + {n};
      } else {
        assert after[k] == before[k];
      }
    }
    assert after.Keys == expected.Keys;
  }
}
