/** The priority frontier of the search: a min-heap of candidate routes.

    The heap is a list kept in binary-heap order on the route price (the
    parent of position i is position (i - 1) / 2); `Push` and `Pop` replace
    the list field by the grown or shrunk list, as `heapq.heappush` and
    `heapq.heappop` change theirs. Only the price orders routes;
    which of several equally cheap routes comes out first is left open. */
module Frontier {

  /** A candidate route: the accumulated price and the nodes travelled. */
  datatype Route<N> = Route(price: nat, path: seq<N>)

  function Parent(i: nat): nat
    requires i > 0
  {
    (i - 1) / 2
  }

  ghost predicate HeapOrdered<N>(v: seq<Route<N>>) {
    forall i {:trigger Parent(i)} :: 0 < i < |v| ==> v[Parent(i)].price <= v[i].price
  }

  /** Heap order everywhere except between `k` and its parent; the parent of
      `k` is still no dearer than the children of `k`. */
  ghost predicate OrderedExceptUp<N>(v: seq<Route<N>>, k: nat) {
    && k < |v|
    && (forall i {:trigger Parent(i)} :: 0 < i < |v| && i != k ==> v[Parent(i)].price <= v[i].price)
    && (forall i :: 0 < i < |v| && Parent(i) == k && k > 0 ==> v[Parent(k)].price <= v[i].price)
  }

  /** Heap order everywhere except between `k` and its children; the parent of
      `k` is still no dearer than the children of `k`. */
  ghost predicate OrderedExceptDown<N>(v: seq<Route<N>>, k: nat) {
    && k < |v|
    && (forall i {:trigger Parent(i)} :: 0 < i < |v| && Parent(i) != k ==> v[Parent(i)].price <= v[i].price)
    && (forall i :: 0 < i < |v| && Parent(i) == k && k > 0 ==> v[Parent(k)].price <= v[i].price)
  }

  /** The first entry of a heap-ordered list is a cheapest one. */
  lemma {:induction false} RootIsCheapest<N>(v: seq<Route<N>>, i: nat)
    requires HeapOrdered(v) && i < |v|
    ensures v[0].price <= v[i].price
    decreases i
  {
    if i > 0 {
      RootIsCheapest(v, Parent(i));
    }
  }

  lemma RootIsCheapestOfAll<N>(v: seq<Route<N>>)
    requires HeapOrdered(v) && |v| > 0
    ensures forall r :: r in multiset(v) ==> v[0].price <= r.price
  {
    forall r | r in multiset(v) ensures v[0].price <= r.price {
      var i :| 0 <= i < |v| && v[i] == r;
      RootIsCheapest(v, i);
    }
  }

  /** Moving the last entry to the root removes exactly the old root and
      leaves the heap out of order at the root only. */
  lemma RemoveRoot<N>(v: seq<Route<N>>)
    requires HeapOrdered(v) && |v| > 0
    ensures |v| == 1 ==> multiset(v[..|v| - 1]) == multiset(v) - multiset{v[0]}
    ensures |v| > 1 ==>
      var w := v[..|v| - 1][0 := v[|v| - 1]];
      multiset(w) == multiset(v) - multiset{v[0]} && OrderedExceptDown(w, 0)
  {
    var w := v[..|v| - 1];
    assert v == w + [v[|v| - 1]];
  }

  lemma ChildrenOf(i: nat, k: nat)
    requires i > 0
    ensures Parent(i) == k <==> i == 2 * k + 1 || i == 2 * k + 2
  {
  }

  /** Swapping two entries keeps the same routes. */
  lemma SwapKeepsContents<N>(v: seq<Route<N>>, a: nat, b: nat)
    requires a < |v| && b < |v|
    ensures multiset(v[a := v[b]][b := v[a]]) == multiset(v)
  {
  }

  /** One step of sifting down: swap `k` with its cheaper child. */
  lemma SiftDownStep<N>(v: seq<Route<N>>, k: nat, c: nat)
    requires OrderedExceptDown(v, k)
    requires c < |v| && c > 0 && Parent(c) == k
    requires forall i :: 0 < i < |v| && Parent(i) == k ==> v[c].price <= v[i].price
    requires v[c].price < v[k].price
    ensures OrderedExceptDown(v[k := v[c]][c := v[k]], c)
  {
    var w := v[k := v[c]][c := v[k]];
    forall i | 0 < i < |w| && Parent(i) != c
      ensures w[Parent(i)].price <= w[i].price
    {
      ChildrenOf(i, k);
      ChildrenOf(i, c);
      if i == k {
        ChildrenOf(c, k);
      }
    }
    forall i | 0 < i < |w| && Parent(i) == c
      ensures w[Parent(c)].price <= w[i].price
    {
      ChildrenOf(c, k);
      ChildrenOf(i, k);
    }
  }

  /** The cheaper child of `k`, the left one on a tie. */
  function CheaperChild<N>(v: seq<Route<N>>, k: nat): (c: nat)
    requires 2 * k + 1 < |v|
    ensures c < |v| && c > 0 && Parent(c) == k
    ensures forall i :: 0 < i < |v| && Parent(i) == k ==> v[c].price <= v[i].price
  {
    var l := 2 * k + 1;
    ChildrenOf(l, k);
    ChildrenOf(l + 1, k);
    assert forall i :: 0 < i < |v| && Parent(i) == k ==> i == l || i == l + 1 by {
      forall i | 0 < i < |v| && Parent(i) == k ensures i == l || i == l + 1 {
        ChildrenOf(i, k);
      }
    }
    if l + 1 < |v| && v[l + 1].price < v[l].price then l + 1 else l
  }

  /** A position without children is trivially in order below. */
  lemma LeafIsDone<N>(v: seq<Route<N>>, k: nat)
    requires OrderedExceptDown(v, k) && 2 * k + 1 >= |v|
    ensures HeapOrdered(v)
  {
    forall i | 0 < i < |v|
      ensures v[Parent(i)].price <= v[i].price
    {
      ChildrenOf(i, k);
    }
  }

  /** Sifting down stops once `k` is no dearer than its children. */
  lemma SiftDownDone<N>(v: seq<Route<N>>, k: nat)
    requires OrderedExceptDown(v, k)
    requires forall i :: 0 < i < |v| && Parent(i) == k ==> v[k].price <= v[i].price
    ensures HeapOrdered(v)
  {
  }

  /** One step of sifting up: swap `k` with its dearer parent. */
  lemma SiftUpStep<N>(v: seq<Route<N>>, k: nat)
    requires OrderedExceptUp(v, k) && k > 0
    requires v[k].price < v[Parent(k)].price
    ensures OrderedExceptUp(v[k := v[Parent(k)]][Parent(k) := v[k]], Parent(k))
  {
    var p := Parent(k);
    var w := v[k := v[p]][p := v[k]];
    forall i | 0 < i < |w| && i != p
      ensures w[Parent(i)].price <= w[i].price
    {
      ChildrenOf(i, k);
      ChildrenOf(i, p);
    }
    forall i | 0 < i < |w| && Parent(i) == p && p > 0
      ensures w[Parent(p)].price <= w[i].price
    {
      ChildrenOf(i, p);
    }
  }

  class Heap<N(==)> {
    var values: seq<Route<N>>

    ghost predicate Valid()
      reads this
    {
      HeapOrdered(values)
    }

    /** The routes held, without regard to their order. */
    ghost function Contents(): multiset<Route<N>>
      reads this
    {
      multiset(values)
    }

    constructor ()
      ensures Valid() && Contents() == multiset{}
    {
      values := [];
    }

    /** The number of routes held. */
    function Len(): (n: nat)
      reads this
      ensures n == |Contents()|
      ensures n == 0 <==> Contents() == multiset{}
    {
      |values|
    }

    /** Adds exactly one route. */
    method Push(r: Route<N>)
      requires Valid()
      modifies this
      ensures Valid()
      ensures Contents() == old(Contents()) + multiset{r}
    {
      values := values + [r];
      SiftUp(|values| - 1);
    }

    /** Removes and returns one cheapest route. */
    method Pop() returns (top: Route<N>)
      requires Valid() && |Contents()| > 0
      modifies this
      ensures Valid()
      ensures top in old(Contents())
      ensures Contents() == old(Contents()) - multiset{top}
      ensures forall r :: r in old(Contents()) ==> top.price <= r.price
    {
      RootIsCheapestOfAll(values);
      RemoveRoot(values);
      top := values[0];
      var last := values[|values| - 1];
      values := values[..|values| - 1];
      if |values| > 0 {
        values := values[0 := last];
        SiftDown(0);
      }
    }

    method SiftUp(k: nat)
      requires OrderedExceptUp(values, k)
      modifies this
      ensures Valid()
      ensures multiset(values) == old(multiset(values))
    {
      ghost var held := multiset(values);
      var v, c: nat := values, k;
      while c > 0 && v[c].price < v[Parent(c)].price
        invariant OrderedExceptUp(v, c)
        invariant multiset(v) == held
        decreases c
      {
        var p := Parent(c);
        SiftUpStep(v, c);
        SwapKeepsContents(v, c, p);
        v := v[c := v[p]][p := v[c]];
        c := p;
      }
      values := v;
    }

    method SiftDown(k: nat)
      requires OrderedExceptDown(values, k)
      modifies this
      ensures Valid()
      ensures multiset(values) == old(multiset(values))
    {
      ghost var held := multiset(values);
      var v, c: nat := values, k;
      while 2 * c + 1 < |v|
        invariant OrderedExceptDown(v, c)
        invariant multiset(v) == held
        decreases |v| - c
      {
        var child := CheaperChild(v, c);
        if v[c].price <= v[child].price {
          SiftDownDone(v, c);
          break;
        }
        SiftDownStep(v, c, child);
        SwapKeepsContents(v, c, child);
        v := v[c := v[child]][child := v[c]];
        c := child;
      }
      if 2 * c + 1 >= |v| {
        LeafIsDone(v, c);
      }
      values := v;
    }
  }
}
