/**
 * The chapter order both course pages use: `sort((a, b) => a.order_index - b.order_index)`,
 * which reorders the loaded array in place, ascending by `order_index`.
 */
module ChapterOrder {
  import opened Entities

  predicate SortedByOrder(s: seq<Chapter>)
  {
    forall i, j :: 0 <= i < j < |s| ==> s[i].orderIndex <= s[j].orderIndex
  }

  /** No two chapters share an `order_index` (the catalog's invariant for one course). */
  predicate DistinctOrder(s: seq<Chapter>)
  {
    forall i, j :: 0 <= i < j < |s| ==> s[i].orderIndex != s[j].orderIndex
  }

  /** Sorts `a` in place ascending by `orderIndex` (a stable insertion sort). */
  method SortByOrderIndex(a: array<Chapter>)
    modifies a
    ensures SortedByOrder(a[..])
    ensures multiset(a[..]) == multiset(old(a[..]))
  {
    var i := 0;
    while i < a.Length
      invariant 0 <= i <= a.Length
      invariant forall p, q :: 0 <= p < q < i ==> a[p].orderIndex <= a[q].orderIndex
      invariant multiset(a[..]) == multiset(old(a[..]))
    {
      InsertAt(a, i);
      i := i + 1;
    }
  }

  /** Moves `a[i]` left past every larger entry, extending the sorted prefix by one. */
  method InsertAt(a: array<Chapter>, i: nat)
    requires i < a.Length
    requires forall p, q :: 0 <= p < q < i ==> a[p].orderIndex <= a[q].orderIndex
    modifies a
    ensures forall p, q :: 0 <= p < q <= i ==> a[p].orderIndex <= a[q].orderIndex
    ensures multiset(a[..]) == multiset(old(a[..]))
  {
    var j := i;
    while 0 < j && a[j - 1].orderIndex > a[j].orderIndex
      invariant 0 <= j <= i
      invariant forall p, q :: 0 <= p < q <= i && q != j ==> a[p].orderIndex <= a[q].orderIndex
      invariant multiset(a[..]) == multiset(old(a[..]))
    {
      Swap(a, j - 1, j);
      j := j - 1;
    }
  }

  /** Exchanges two entries of `a`. */
  method Swap(a: array<Chapter>, i: nat, j: nat)
    requires i < j < a.Length
    modifies a
    ensures a[..] == old(a[..])[i := old(a[j])][j := old(a[i])]
    ensures multiset(a[..]) == multiset(old(a[..]))
  {
    a[i], a[j] := a[j], a[i];
  }

  /** Sorts a loaded list of chapters: copies it into an array and sorts that in place. */
  method SortChapters(s: seq<Chapter>) returns (r: seq<Chapter>)
    ensures SortedByOrder(r)
    ensures multiset(r) == multiset(s)
    ensures |r| == |s|
  {
    var a := new Chapter[|s|](i requires 0 <= i < |s| => s[i]);
    assert a[..] == s;
    SortByOrderIndex(a);
    r := a[..];
    assert |multiset(r)| == |multiset(s)|;
  }

  /**
   * When `order_index` values are distinct, the sorted order is unique: any two sorted
   * permutations of the same chapters are equal, so "the predecessor of a chapter" does
   * not depend on how the sort was carried out.
   */
  lemma {:induction false} SortedPermutationUnique(a: seq<Chapter>, b: seq<Chapter>)
    requires SortedByOrder(a) && SortedByOrder(b) && DistinctOrder(a)
    requires multiset(a) == multiset(b)
    ensures a == b
  {
    if a == [] {
      assert |multiset(b)| == 0;
    } else {
      assert |b| == |multiset(b)| == |multiset(a)| == |a|;
      SortedHeadsEqual(a, b);
      TailsSameMultiset(a, b);
      assert SortedByOrder(a[1..]) && DistinctOrder(a[1..]) && SortedByOrder(b[1..]);
      SortedPermutationUnique(a[1..], b[1..]);
      assert a == [a[0]] + a[1..] && b == [b[0]] + b[1..];
    }
  }

  /** Two sorted permutations of distinctly ordered chapters start with the same chapter. */
  lemma SortedHeadsEqual(a: seq<Chapter>, b: seq<Chapter>)
    requires a != [] && b != []
    requires SortedByOrder(a) && SortedByOrder(b) && DistinctOrder(a)
    requires multiset(a) == multiset(b)
    ensures a[0] == b[0]
  {
    assert a[0] in multiset(b);
    assert b[0] in multiset(a);
    var k :| 0 <= k < |b| && b[k] == a[0];
    var m :| 0 <= m < |a| && a[m] == b[0];
    assert b[0].orderIndex <= b[k].orderIndex;
    assert a[0].orderIndex <= a[m].orderIndex;
  }

  lemma TailsSameMultiset(a: seq<Chapter>, b: seq<Chapter>)
    requires a != [] && b != [] && a[0] == b[0]
    requires multiset(a) == multiset(b)
    ensures multiset(a[1..]) == multiset(b[1..])
  {
    assert a == [a[0]] + a[1..] && b == [b[0]] + b[1..];
    assert multiset(a) == multiset{a[0]} + multiset(a[1..]);
    assert multiset(b) == multiset{b[0]} + multiset(b[1..]);
    assert multiset(a[1..]) == multiset(a) - multiset{a[0]};
    assert multiset(b[1..]) == multiset(b) - multiset{b[0]};
  }
}
