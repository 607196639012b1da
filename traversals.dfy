/** The three traversals as the sequences of bids they hand to the output,
    in the orders their names promise, beside what the code as written
    emits. */
module Traversals {
  import opened StringOrder
  import opened BidTree

  /** Left subtree, then the node, then the right subtree. */
  function InOrder(t: Tree): (s: seq<Bid>)
  {
    match t
    case Empty => []
    case Branch(l, b, r) => InOrder(l) + [b] + InOrder(r)
  }

  /** The node, then its left subtree, then its right subtree. */
  function PreOrder(t: Tree): (s: seq<Bid>)
  {
    match t
    case Empty => []
    case Branch(l, b, r) => [b] + PreOrder(l) + PreOrder(r)
  }

  /** The left subtree, then the right subtree, then the node. */
  function PostOrder(t: Tree): (s: seq<Bid>)
  {
    match t
    case Empty => []
    case Branch(l, b, r) => PostOrder(l) + PostOrder(r) + [b]
  }

  /** Each traversal visits every stored bid exactly once. */
  lemma {:induction false} InOrderComplete(t: Tree)
    ensures multiset(InOrder(t)) == Bids(t)
  {
    match t
    case Empty =>
    case Branch(l, b, r) =>
      InOrderComplete(l);
      InOrderComplete(r);
  }

  lemma {:induction false} PreOrderComplete(t: Tree)
    ensures multiset(PreOrder(t)) == Bids(t)
  {
    match t
    case Empty =>
    case Branch(l, b, r) =>
      PreOrderComplete(l);
      PreOrderComplete(r);
  }

  lemma {:induction false} PostOrderComplete(t: Tree)
    ensures multiset(PostOrder(t)) == Bids(t)
  {
    match t
    case Empty =>
    case Branch(l, b, r) =>
      PostOrderComplete(l);
      PostOrderComplete(r);
  }

  /** Every position of the in-order sequence holds a stored bid. */
  lemma InOrderMembers(t: Tree, i: nat)
    requires i < |InOrder(t)|
    ensures InOrder(t)[i] in Bids(t)
  {
    InOrderComplete(t);
    assert InOrder(t)[i] in multiset(InOrder(t));
  }

  /** A bound on the stored ids bounds every id in the in-order sequence. */
  lemma InOrderBounds(t: Tree, k: string)
    ensures AllBelow(Bids(t), k) ==> forall i | 0 <= i < |InOrder(t)| :: Less(InOrder(t)[i].bidId, k)
    ensures NoneBelow(Bids(t), k) ==> forall i | 0 <= i < |InOrder(t)| :: !Less(InOrder(t)[i].bidId, k)
  {
    forall i | 0 <= i < |InOrder(t)|
      ensures InOrder(t)[i] in Bids(t)
    {
      InOrderMembers(t, i);
    }
  }

  /** Ids never decrease along `s`. */
  ghost predicate Ascending(s: seq<Bid>)
  {
    forall i, j | 0 <= i < j < |s| :: !Less(s[j].bidId, s[i].bidId)
  }

  /** An ascending run below `b`, then `b`, then an ascending run at or above
      `b` is ascending. */
  lemma JoinAscending(sl: seq<Bid>, b: Bid, sr: seq<Bid>)
    requires Ascending(sl) && Ascending(sr)
    requires forall i | 0 <= i < |sl| :: Less(sl[i].bidId, b.bidId)
    requires forall j | 0 <= j < |sr| :: !Less(sr[j].bidId, b.bidId)
    ensures Ascending(sl + [b] + sr)
  {
    var s := sl + [b] + sr;
    var n := |sl|;
    forall i, j | 0 <= i < j < |s|
      ensures !Less(s[j].bidId, s[i].bidId)
    {
      if j < n {
        assert s[i] == sl[i] && s[j] == sl[j];
      } else if i > n {
        assert s[i] == sr[i - n - 1] && s[j] == sr[j - n - 1];
      } else if i == n {
        assert s[j] == sr[j - n - 1];
      } else if j == n {
        assert s[i] == sl[i];
        LessTrichotomy(s[i].bidId, b.bidId);
      } else {
        assert s[i] == sl[i] && s[j] == sr[j - n - 1];
        LessBelowAtLeast(s[i].bidId, b.bidId, s[j].bidId);
        LessTrichotomy(s[i].bidId, s[j].bidId);
      }
    }
  }

  /** On a search tree the in-order traversal lists the bids by ascending id. */
  lemma {:induction false} InOrderAscending(t: Tree)
    requires IsBst(t)
    ensures Ascending(InOrder(t))
  {
    match t
    case Empty =>
    case Branch(l, b, r) =>
      var sl, sr := InOrder(l), InOrder(r);
      assert Ascending(sl) by {
        InOrderAscending(l);
      }
      assert Ascending(sr) by {
        InOrderAscending(r);
      }
      InOrderBounds(l, b.bidId);
      InOrderBounds(r, b.bidId);
      JoinAscending(sl, b, sr);
  }

  // ---------------------------------------------------------------------
  // What the code as written emits

  /** inOrder as written returns right after emitting the node, so the right
      subtree is never visited. */
  function InOrderAsWritten(t: Tree): (s: seq<Bid>)
  {
    match t
    case Empty => []
    case Branch(l, b, _) => InOrderAsWritten(l) + [b]
  }

  /** preOrder as written returns right after emitting the node. */
  function PreOrderAsWritten(t: Tree): (s: seq<Bid>)
  {
    match t
    case Empty => []
    case Branch(_, b, _) => [b]
  }

  /** postOrder as written descends into both children with inOrder, as
      written, before emitting the node. */
  function PostOrderAsWritten(t: Tree): (s: seq<Bid>)
  {
    match t
    case Empty => []
    case Branch(l, b, r) => InOrderAsWritten(l) + InOrderAsWritten(r) + [b]
  }

  /** When the root has a right child, the as-written in-order output is
      strictly shorter than the documented one. */
  lemma {:induction false} InOrderAsWrittenMissesRight(t: Tree)
    requires t.Branch? && t.right.Branch?
    ensures |InOrderAsWritten(t)| < |InOrder(t)|
  {
    InOrderAsWrittenShorter(t.left);
  }

  lemma {:induction false} InOrderAsWrittenShorter(t: Tree)
    ensures |InOrderAsWritten(t)| <= |InOrder(t)|
  {
    match t
    case Empty =>
    case Branch(l, _, _) =>
      InOrderAsWrittenShorter(l);
  }

  /** No node of `t` has a right child, so `t` is a chain of left children. */
  predicate NoRightChildren(t: Tree)
  {
    match t
    case Empty => true
    case Branch(l, _, r) => r.Empty? && NoRightChildren(l)
  }

  /** In-order as written matches the documented order exactly on the trees
      where no node has a right child. */
  lemma {:induction false} InOrderAsWrittenExact(t: Tree)
    ensures InOrderAsWritten(t) == InOrder(t) <==> NoRightChildren(t)
  {
    match t
    case Empty =>
    case Branch(l, b, r) =>
      InOrderAsWrittenExact(l);
      if r.Branch? {
        InOrderAsWrittenMissesRight(t);
      } else {
        var w, d := InOrderAsWritten(l), InOrder(l);
        assert InOrder(t) == d + [b];
        if w + [b] == d + [b] {
          assert w == (w + [b])[..|w|] && d == (d + [b])[..|d|];
        }
      }
  }

  /** A root with one right child: in-order as written emits only the root,
      while the documented order lists both bids. */
  lemma InOrderAsWrittenDropsRightChild(a: Bid, c: Bid)
    ensures InOrderAsWritten(Branch(Empty, a, Branch(Empty, c, Empty))) == [a]
    ensures InOrder(Branch(Empty, a, Branch(Empty, c, Empty))) == [a, c]
  {
  }

  /** A root with one left child: pre-order as written emits only the root,
      while the documented order lists both bids. */
  lemma PreOrderAsWrittenStopsAtRoot(a: Bid, c: Bid)
    ensures PreOrderAsWritten(Branch(Branch(Empty, c, Empty), a, Empty)) == [a]
    ensures PreOrder(Branch(Branch(Empty, c, Empty), a, Empty)) == [a, c]
  {
  }

  /** A right-leaning chain of three bids: postOrder as written emits only
      two of them, and not in post-order. */
  lemma PostOrderAsWrittenChain(a: Bid, b: Bid, c: Bid)
    ensures PostOrderAsWritten(Branch(Empty, a, Branch(Empty, b, Branch(Empty, c, Empty)))) == [b, a]
    ensures PostOrder(Branch(Empty, a, Branch(Empty, b, Branch(Empty, c, Empty)))) == [c, b, a]
  {
    assert PostOrder(Branch(Empty, b, Branch(Empty, c, Empty))) == [c, b];
  }
}
