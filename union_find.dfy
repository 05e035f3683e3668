/**
 * The union-find the tree keeps over vertex ids. Only its contract is
 * modelled: a map from each element to its representative. How jgrapht
 * links roots (rank, path compression) is not part of this model.
 */
module UnionFinds {
  import opened Results
  import opened JavaLang

  /** Every element's representative is an element that represents itself. */
  ghost predicate IsRepMap(rep: map<int32, int32>)
  {
    forall x {:trigger rep[rep[x]]} | x in rep :: rep[x] in rep && rep[rep[x]] == rep[x]
  }

  /** The representative of an element is itself an element, and its own representative. */
  lemma RepIsRoot(rep: map<int32, int32>, x: int32)
    requires IsRepMap(rep) && x in rep
    ensures rep[x] in rep && rep[rep[x]] == rep[x]
  {
  }

  /** The classes whose representatives are in cls become one class, represented by r. */
  function Merge(rep: map<int32, int32>, cls: set<int32>, r: int32): (m: map<int32, int32>)
    ensures m.Keys == rep.Keys
  {
    map x | x in rep :: if rep[x] in cls then r else rep[x]
  }

  /** Merging classes keeps a representative map one: merged classes get r, the others keep theirs. */
  lemma MergeProperties(rep: map<int32, int32>, cls: set<int32>, r: int32)
    requires IsRepMap(rep) && r in cls && r in rep && rep[r] == r
    ensures IsRepMap(Merge(rep, cls, r))
    ensures forall x | x in rep && rep[x] in cls :: Merge(rep, cls, r)[x] == r
    ensures forall x | x in rep && rep[x] !in cls :: Merge(rep, cls, r)[x] == rep[x]
  {
    var m := Merge(rep, cls, r);
    forall x | x in m
      ensures m[x] in m && m[m[x]] == m[x]
    {
      assert x in rep;
      RepIsRoot(rep, x);
      var y := rep[x];
      if y in cls {
        assert m[x] == r && m[r] == r;
      } else {
        assert m[x] == y && m[y] == y;
      }
    }
  }

  /** Merging only ever joins classes: elements that shared a representative still do. */
  lemma MergeJoins(rep: map<int32, int32>, cls: set<int32>, r: int32, x: int32, y: int32)
    requires x in rep && y in rep && rep[x] == rep[y]
    ensures Merge(rep, cls, r)[x] == Merge(rep, cls, r)[y]
  {
  }

  /**
   * Classes only ever merge on the way from before to after: the elements
   * stay the same, and each element's new representative is the new
   * representative of its old one (CoarsensJoins: elements that shared a
   * representative still do).
   */
  ghost predicate Coarsens(before: map<int32, int32>, after: map<int32, int32>)
  {
    && after.Keys == before.Keys
    && forall x {:trigger before[x]} | x in before :: before[x] in before && after[x] == after[before[x]]
  }

  /** Under a coarsening, two elements of one class stay in one class. */
  lemma CoarsensJoins(before: map<int32, int32>, after: map<int32, int32>, x: int32, y: int32)
    requires Coarsens(before, after)
    requires x in before && y in before && before[x] == before[y]
    ensures after[x] == after[y]
  {
  }

  /** Changing nothing is a coarsening. */
  lemma CoarsensRefl(rep: map<int32, int32>)
    requires IsRepMap(rep)
    ensures Coarsens(rep, rep)
  {
    forall x | x in rep
      ensures rep[x] in rep && rep[x] == rep[rep[x]]
    {
      RepIsRoot(rep, x);
    }
  }

  /** A merge coarsens the classes. */
  lemma MergeCoarsens(rep: map<int32, int32>, cls: set<int32>, r: int32)
    requires IsRepMap(rep)
    ensures Coarsens(rep, Merge(rep, cls, r))
  {
    var m := Merge(rep, cls, r);
    forall x | x in rep
      ensures rep[x] in rep && m[x] == m[rep[x]]
    {
      RepIsRoot(rep, x);
    }
  }

  /** Coarsening twice is coarsening. */
  lemma CoarsensTrans(a: map<int32, int32>, b: map<int32, int32>, c: map<int32, int32>)
    requires Coarsens(a, b) && Coarsens(b, c)
    ensures Coarsens(a, c)
  {
    forall x | x in a
      ensures a[x] in a && c[x] == c[a[x]]
    {
      assert b[x] == b[a[x]];
    }
  }

  /** Merging one class into itself changes nothing. */
  lemma MergeOne(rep: map<int32, int32>, r: int32)
    ensures Merge(rep, {r}, r) == rep
  {
    var m := Merge(rep, {r}, r);
    forall x | x in rep
      ensures m[x] == rep[x]
    {
    }
  }

  /** Merging a set of classes and then one more class is merging all of them at once. */
  lemma MergeCompose(rep: map<int32, int32>, cls: set<int32>, r: int32, c: int32, keep: int32)
    requires r in cls
    ensures Merge(Merge(rep, cls, r), {r, c}, keep) == Merge(rep, cls + {c}, keep)
  {
    var m := Merge(rep, cls, r);
    forall x | x in rep
      ensures Merge(m, {r, c}, keep)[x] == Merge(rep, cls + {c}, keep)[x]
    {
      if rep[x] in cls {
        assert m[x] == r;
      } else {
        assert m[x] == rep[x];
      }
    }
  }

  class UnionFind {
    /** The representative of each element; its keys are the elements. */
    var rep: map<int32, int32>

    ghost predicate Valid()
      reads this
    {
      IsRepMap(rep)
    }

    /** `new UnionFind<>(elements)`: every element alone in its class. */
    constructor (elements: set<int32>)
      ensures Valid()
      ensures rep.Keys == elements
      ensures forall x | x in elements :: rep[x] == x
    {
      rep := map x | x in elements :: x;
    }

    /** `size()`: the number of elements. */
    function Size(): (n: nat)
      reads this
      ensures n == |rep.Keys|
    {
      |rep|
    }

    /** `find(x)`: the representative of x; an element it does not hold is an IllegalArgumentException. */
    function Find(x: int32): (r: Result<int32>)
      reads this
      requires Valid()
      ensures r.Ok? <==> x in rep
      ensures r.Err? ==> r.error == NotInUnionFind
      ensures r.Ok? ==> r.value == rep[x]
      ensures r.Ok? ==> r.value in rep && rep[r.value] == r.value
    {
      if x in rep then RepIsRoot(rep, x); Ok(rep[x]) else Err(NotInUnionFind)
    }

    /**
     * `union(a, b)`: the classes of a and b become one, represented by one of
     * their two representatives. Merging keeps a representative map one
     * (MergeProperties), so Valid is preserved.
     */
    method Union(a: int32, b: int32)
      requires a in rep && b in rep
      modifies this
      ensures old(Valid()) ==> Valid()
      ensures rep.Keys == old(rep.Keys)
      ensures rep[a] == old(rep[a]) || rep[a] == old(rep[b])
      ensures rep == Merge(old(rep), {old(rep[a]), old(rep[b])}, rep[a])
      ensures rep[a] == rep[b]
      ensures old(Valid()) ==> Coarsens(old(rep), rep)
    {
      var ra, rb := rep[a], rep[b];
      var keep :| keep in {ra, rb};
      if IsRepMap(rep) {
        RepIsRoot(rep, a);
        RepIsRoot(rep, b);
        MergeProperties(rep, {ra, rb}, keep);
        MergeCoarsens(rep, {ra, rb}, keep);
      }
      rep := Merge(rep, {ra, rb}, keep);
    }
  }
}
