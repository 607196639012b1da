/** The bid records and the binary search tree over them as a value.
    `Tree` is the abstract shape of the linked nodes; `Insert`, `Find` and
    `Remove` follow the descent of `addNode`, `Search` and `removeNode` branch
    for branch, and are the specifications the heap methods in `LinkedBst`
    are proved against. */
module BidTree {
  import opened StringOrder

  /** One bid. `bidId` is the key; the other fields are carried along. The
      amount is a C++ `double`; it is an opaque payload here. */
  datatype Bid = Bid(bidId: string, title: string, fund: string, amount: real)

  /** A default-constructed `Bid`: empty strings and amount 0.0. */
  function EmptyBid(): (b: Bid)
    ensures b.bidId == ""
  {
    Bid("", "", "", 0.0)
  }

  datatype Option<T> = None | Some(value: T) {
    function GetOr(default: T): T
    {
      match this
      case Some(v) => v
      case None => default
    }
  }

  /** A subtree: either absent (a null pointer) or a node with its bid and
      its two owned children. */
  datatype Tree = Empty | Branch(left: Tree, bid: Bid, right: Tree)

  /** The bids stored in a subtree, with multiplicity. */
  function Bids(t: Tree): multiset<Bid>
  {
    match t
    case Empty => multiset{}
    case Branch(l, b, r) => Bids(l) + multiset{b} + Bids(r)
  }

  /** How many stored bids carry the id `id`. */
  function Count(t: Tree, id: string): nat
  {
    match t
    case Empty => 0
    case Branch(l, b, r) => Count(l, id) + (if b.bidId == id then 1 else 0) + Count(r, id)
  }

  /** Every bid in `s` has an id strictly below `k`. */
  ghost predicate AllBelow(s: multiset<Bid>, k: string)
  {
    forall c | c in s :: Less(c.bidId, k)
  }

  /** No bid in `s` has an id strictly below `k`. */
  ghost predicate NoneBelow(s: multiset<Bid>, k: string)
  {
    forall c | c in s :: !Less(c.bidId, k)
  }

  /** The ordering invariant: at every node the left subtree holds ids
      strictly below the node's id and the right subtree ids at or above it. */
  ghost predicate IsBst(t: Tree)
  {
    match t
    case Empty => true
    case Branch(l, b, r) =>
      IsBst(l) && IsBst(r) && AllBelow(Bids(l), b.bidId) && NoneBelow(Bids(r), b.bidId)
  }

  /** Both bounds survive taking one bid out. */
  lemma BoundsShrink(small: multiset<Bid>, x: Bid, k: string)
    ensures AllBelow(small + multiset{x}, k) ==> AllBelow(small, k)
    ensures NoneBelow(small + multiset{x}, k) ==> NoneBelow(small, k)
  {
    assert forall d | d in small :: d in small + multiset{x};
  }

  /** Both bounds survive adding a bid that meets them. */
  lemma BoundsGrow(s: multiset<Bid>, x: Bid, k: string)
    ensures AllBelow(s, k) && Less(x.bidId, k) ==> AllBelow(s + multiset{x}, k)
    ensures NoneBelow(s, k) && !Less(x.bidId, k) ==> NoneBelow(s + multiset{x}, k)
  {
  }

  /** An id that no stored bid carries is counted zero times. */
  lemma {:induction false} NoneStored(t: Tree, id: string)
    requires forall c | c in Bids(t) :: c.bidId != id
    ensures Count(t, id) == 0
  {
    match t
    case Empty =>
    case Branch(l, _, r) =>
      NoneStored(l, id);
      NoneStored(r, id);
  }

  // ---------------------------------------------------------------------
  // Insert / addNode

  /** The tree after inserting `b`: go left where the node's id compares
      greater than the new id, otherwise right, and hang a new leaf on the
      first empty slot. Equal ids therefore go right. */
  function Insert(t: Tree, b: Bid): Tree
  {
    match t
    case Empty => Branch(Empty, b, Empty)
    case Branch(l, c, r) =>
      if Compare(c.bidId, b.bidId) > 0 then Branch(Insert(l, b), c, r)
      else Branch(l, c, Insert(r, b))
  }

  /** Insertion adds exactly the new bid to what is stored. */
  lemma {:induction false} InsertContents(t: Tree, b: Bid)
    ensures Bids(Insert(t, b)) == Bids(t) + multiset{b}
  {
    match t
    case Empty =>
    case Branch(l, c, r) =>
      if Compare(c.bidId, b.bidId) > 0 {
        InsertContents(l, b);
      } else {
        InsertContents(r, b);
      }
  }

  /** Insertion keeps the ordering invariant, duplicates included. */
  lemma {:induction false} InsertPreservesBst(t: Tree, b: Bid)
    requires IsBst(t)
    ensures IsBst(Insert(t, b))
  {
    match t
    case Empty =>
    case Branch(l, c, r) =>
      CompareFlip(c.bidId, b.bidId);
      if Compare(c.bidId, b.bidId) > 0 {
        InsertPreservesBst(l, b);
        InsertContents(l, b);
        BoundsGrow(Bids(l), b, c.bidId);
        assert Insert(t, b) == Branch(Insert(l, b), c, r);
      } else {
        InsertPreservesBst(r, b);
        InsertContents(r, b);
        BoundsGrow(Bids(r), b, c.bidId);
        assert Insert(t, b) == Branch(l, c, Insert(r, b));
      }
  }

  /** `t` sits unchanged at the top of `u`: every node of `t` is in `u` at the
      same position with the same bid; `u` may only fill empty slots. */
  predicate Embeds(t: Tree, u: Tree)
  {
    match t
    case Empty => true
    case Branch(l, b, r) => u.Branch? && u.bid == b && Embeds(l, u.left) && Embeds(r, u.right)
  }

  /** Insertion moves and changes no existing node and adds exactly one. */
  lemma {:induction false} InsertKeepsNodes(t: Tree, b: Bid)
    ensures Embeds(t, Insert(t, b))
    ensures |Bids(Insert(t, b))| == |Bids(t)| + 1
  {
    InsertContents(t, b);
    match t
    case Empty =>
    case Branch(l, c, r) =>
      if Compare(c.bidId, b.bidId) > 0 {
        InsertKeepsNodes(l, b);
        EmbedsSelf(r);
      } else {
        EmbedsSelf(l);
        InsertKeepsNodes(r, b);
      }
  }

  lemma {:induction false} EmbedsSelf(t: Tree)
    ensures Embeds(t, t)
  {
    match t
    case Empty =>
    case Branch(l, _, r) =>
      EmbedsSelf(l);
      EmbedsSelf(r);
  }

  // ---------------------------------------------------------------------
  // Search

  /** The bid the iterative search reaches: the first node on the search
      path whose id equals `id`, or None when the path runs out. */
  function Find(t: Tree, id: string): (r: Option<Bid>)
    ensures r.Some? ==> r.value in Bids(t) && r.value.bidId == id && Count(t, id) > 0
  {
    match t
    case Empty => None
    case Branch(l, c, rt) =>
      if Compare(c.bidId, id) == 0 then Some(c)
      else if Compare(id, c.bidId) < 0 then Find(l, id)
      else Find(rt, id)
  }

  /** On a search tree the search finds every stored id. With the
      soundness in Find's contract: found exactly when the id is stored. */
  lemma {:induction false} FindComplete(t: Tree, id: string)
    requires IsBst(t)
    ensures Find(t, id).Some? <==> Count(t, id) > 0
  {
    match t
    case Empty =>
    case Branch(l, c, r) =>
      LessTrichotomy(id, c.bidId);
      if Compare(c.bidId, id) != 0 {
        if Compare(id, c.bidId) < 0 {
          FindComplete(l, id);
          NoneStored(r, id);
        } else {
          FindComplete(r, id);
          NoneStored(l, id);
        }
      }
  }

  /** What callers test: with a non-empty id, the search result carries an
      empty id exactly when no stored bid has the id. */
  lemma {:induction false} SentinelMeansAbsent(t: Tree, id: string)
    requires IsBst(t) && id != ""
    ensures Find(t, id).GetOr(EmptyBid()).bidId == "" <==> Count(t, id) == 0
  {
    FindComplete(t, id);
  }

  /** Search after Insert: the id is found; it is the new bid unless the
      search already stopped at an equal id before, which then hides the
      new one. */
  lemma {:induction false} InsertThenFind(t: Tree, b: Bid)
    ensures Find(Insert(t, b), b.bidId) ==
      if Find(t, b.bidId).Some? then Find(t, b.bidId) else Some(b)
  {
    match t
    case Empty =>
    case Branch(l, c, r) =>
      CompareFlip(c.bidId, b.bidId);
      if Compare(c.bidId, b.bidId) > 0 {
        InsertThenFind(l, b);
      } else {
        InsertThenFind(r, b);
      }
  }

  // ---------------------------------------------------------------------
  // removeNode

  /** The bid the successor loop reaches by following left children. */
  function Leftmost(t: Tree): (m: Bid)
    requires t.Branch?
  {
    if t.left.Empty? then t.bid else Leftmost(t.left)
  }

  /** The leftmost bid is one of the stored bids. */
  lemma {:induction false} LeftmostStored(t: Tree)
    requires t.Branch?
    ensures Leftmost(t) in Bids(t)
  {
    if t.left.Branch? {
      LeftmostStored(t.left);
    }
  }

  /** On a search tree the leftmost bid has the smallest id. */
  lemma {:induction false} LeftmostIsMinimum(t: Tree)
    requires t.Branch? && IsBst(t)
    ensures NoneBelow(Bids(t), Leftmost(t).bidId)
  {
    var m := Leftmost(t).bidId;
    LessTrichotomy(m, m);
    if t.left.Branch? {
      LeftmostIsMinimum(t.left);
      LeftmostStored(t.left);
      assert Less(m, t.bid.bidId);
      LessTrichotomy(m, t.bid.bidId);
      forall c | c in Bids(t.right)
        ensures !Less(c.bidId, m)
      {
        if Less(c.bidId, m) {
          LessTransitive(c.bidId, m, t.bid.bidId);
        }
      }
    }
  }

  /** The subtree with its leftmost node cut out and replaced by that
      node's right child: one bid, the leftmost, is gone. */
  function RemoveLeftmost(t: Tree): (u: Tree)
    requires t.Branch?
  {
    if t.left.Empty? then t.right else Branch(RemoveLeftmost(t.left), t.bid, t.right)
  }

  /** Exactly the leftmost bid leaves the subtree. */
  lemma {:induction false} RemoveLeftmostContents(t: Tree)
    requires t.Branch?
    ensures Bids(RemoveLeftmost(t)) + multiset{Leftmost(t)} == Bids(t)
  {
    if t.left.Branch? {
      var u := RemoveLeftmost(t.left);
      assert Bids(u) + multiset{Leftmost(t.left)} == Bids(t.left) by {
        RemoveLeftmostContents(t.left);
      }
      assert Leftmost(t) == Leftmost(t.left);
      assert RemoveLeftmost(t) == Branch(u, t.bid, t.right);
    }
  }

  /** The leftmost id is counted once less and every other id as often as
      before. */
  lemma {:induction false} RemoveLeftmostCount(t: Tree, id: string)
    requires t.Branch?
    ensures Count(RemoveLeftmost(t), id) + (if Leftmost(t).bidId == id then 1 else 0) == Count(t, id)
  {
    if t.left.Branch? {
      RemoveLeftmostCount(t.left, id);
      assert Leftmost(t) == Leftmost(t.left);
      assert RemoveLeftmost(t) == Branch(RemoveLeftmost(t.left), t.bid, t.right);
    }
  }

  /** Cutting out the leftmost node keeps the ordering invariant. */
  lemma {:induction false} RemoveLeftmostPreservesBst(t: Tree)
    requires t.Branch? && IsBst(t)
    ensures IsBst(RemoveLeftmost(t))
  {
    if t.left.Branch? {
      var u := RemoveLeftmost(t.left);
      assert IsBst(u) by {
        RemoveLeftmostPreservesBst(t.left);
      }
      assert AllBelow(Bids(u), t.bid.bidId) by {
        RemoveLeftmostContents(t.left);
        BoundsShrink(Bids(u), Leftmost(t.left), t.bid.bidId);
      }
    }
  }

  /** The tree after removing `id`: descend as the search does; at the
      matching node a leaf becomes empty, a node with one child becomes that
      child, and a node with two children takes the leftmost bid of its right
      subtree, whose id is then removed from the right subtree. */
  function Remove(t: Tree, id: string): Tree
  {
    match t
    case Empty => Empty
    case Branch(l, c, r) =>
      if Compare(id, c.bidId) < 0 then Branch(Remove(l, id), c, r)
      else if Compare(id, c.bidId) > 0 then Branch(l, c, Remove(r, id))
      else if l.Empty? && r.Empty? then Empty
      else if l.Branch? && r.Empty? then l
      else if r.Branch? && l.Empty? then r
      else
        var m := Leftmost(r);
        Branch(l, m, Remove(r, m.bidId))
  }

  /** Removing an id that is not stored gives back the same subtree. */
  lemma {:induction false} RemoveAbsent(t: Tree, id: string)
    requires Count(t, id) == 0
    ensures Remove(t, id) == t
  {
    match t
    case Empty =>
    case Branch(l, c, r) =>
      if Compare(id, c.bidId) < 0 {
        RemoveAbsent(l, id);
      } else if Compare(id, c.bidId) > 0 {
        RemoveAbsent(r, id);
      }
  }

  /** In the two-child case the recursive removal of the successor's id
      cuts out exactly the leftmost node. */
  lemma {:induction false} RemoveSuccessor(t: Tree)
    requires t.Branch? && IsBst(t)
    ensures Remove(t, Leftmost(t).bidId) == RemoveLeftmost(t)
  {
    var m := Leftmost(t).bidId;
    if t.left.Branch? {
      LeftmostStored(t.left);
      assert Less(m, t.bid.bidId);
      RemoveSuccessor(t.left);
    } else {
      assert Compare(m, t.bid.bidId) == 0;
    }
  }

  /** Two-child case: the node stays, its bid becomes the leftmost bid of the
      right subtree, and exactly that leftmost node leaves the right subtree. */
  lemma RemoveTwoChildren(t: Tree)
    requires t.Branch? && t.left.Branch? && t.right.Branch? && IsBst(t)
    ensures Remove(t, t.bid.bidId) == Branch(t.left, Leftmost(t.right), RemoveLeftmost(t.right))
  {
    RemoveSuccessor(t.right);
  }

  /** Removing a stored id deletes exactly one bid, the one the search
      finds, so one fewer bid carries the id; the ordering invariant holds. */
  lemma {:induction false} RemovePresent(t: Tree, id: string)
    requires IsBst(t) && Count(t, id) > 0
    ensures Find(t, id).Some?
    ensures Bids(Remove(t, id)) + multiset{Find(t, id).value} == Bids(t)
    ensures Count(Remove(t, id), id) == Count(t, id) - 1
    ensures IsBst(Remove(t, id))
  {
    var c := t.bid;
    LessTrichotomy(id, c.bidId);
    CompareFlip(id, c.bidId);
    if Compare(id, c.bidId) < 0 {
      assert Count(t.left, id) > 0 by {
        NoneStored(t.right, id);
      }
      RemovePresent(t.left, id);
      RemoveLeftStep(t, id);
    } else if Compare(id, c.bidId) > 0 {
      assert Count(t.right, id) > 0 by {
        NoneStored(t.left, id);
      }
      RemovePresent(t.right, id);
      RemoveRightStep(t, id);
    } else {
      RemoveAtMatch(t);
    }
  }

  /** The descent to the left in RemovePresent: what holds of the left
      subtree holds of the whole. */
  lemma RemoveLeftStep(t: Tree, id: string)
    requires t.Branch? && IsBst(t) && Less(id, t.bid.bidId)
    requires Find(t.left, id).Some?
    requires Bids(Remove(t.left, id)) + multiset{Find(t.left, id).value} == Bids(t.left)
    requires Count(Remove(t.left, id), id) == Count(t.left, id) - 1
    requires IsBst(Remove(t.left, id))
    ensures Find(t, id).Some?
    ensures Bids(Remove(t, id)) + multiset{Find(t, id).value} == Bids(t)
    ensures Count(Remove(t, id), id) == Count(t, id) - 1
    ensures IsBst(Remove(t, id))
  {
    var l, c, r := t.left, t.bid, t.right;
    var u, f := Remove(l, id), Find(l, id).value;
    CompareFlip(id, c.bidId);
    assert Find(t, id) == Some(f);
    assert Remove(t, id) == Branch(u, c, r);
    assert AllBelow(Bids(u), c.bidId) by {
      BoundsShrink(Bids(u), f, c.bidId);
    }
  }

  /** The descent to the right in RemovePresent. */
  lemma RemoveRightStep(t: Tree, id: string)
    requires t.Branch? && IsBst(t) && Less(t.bid.bidId, id)
    requires Find(t.right, id).Some?
    requires Bids(Remove(t.right, id)) + multiset{Find(t.right, id).value} == Bids(t.right)
    requires Count(Remove(t.right, id), id) == Count(t.right, id) - 1
    requires IsBst(Remove(t.right, id))
    ensures Find(t, id).Some?
    ensures Bids(Remove(t, id)) + multiset{Find(t, id).value} == Bids(t)
    ensures Count(Remove(t, id), id) == Count(t, id) - 1
    ensures IsBst(Remove(t, id))
  {
    var l, c, r := t.left, t.bid, t.right;
    var u, f := Remove(r, id), Find(r, id).value;
    CompareFlip(id, c.bidId);
    assert Find(t, id) == Some(f);
    assert Remove(t, id) == Branch(l, c, u);
    assert NoneBelow(Bids(u), c.bidId) by {
      BoundsShrink(Bids(u), f, c.bidId);
    }
  }

  /** Removal at the node holding the id: the node's own bid is the one that
      goes, whether the node is a leaf, has one child or has two. */
  lemma RemoveAtMatch(t: Tree)
    requires t.Branch? && IsBst(t)
    ensures Find(t, t.bid.bidId) == Some(t.bid)
    ensures Bids(Remove(t, t.bid.bidId)) + multiset{t.bid} == Bids(t)
    ensures Count(Remove(t, t.bid.bidId), t.bid.bidId) == Count(t, t.bid.bidId) - 1
    ensures IsBst(Remove(t, t.bid.bidId))
  {
    if t.left.Empty? || t.right.Empty? {
      RemoveAtOneChild(t);
    } else {
      RemoveAtTwoChildren(t);
    }
  }

  /** The leaf and one-child cases: the node is replaced by its only child,
      or by nothing. */
  lemma RemoveAtOneChild(t: Tree)
    requires t.Branch? && (t.left.Empty? || t.right.Empty?)
    ensures Remove(t, t.bid.bidId) == if t.left.Empty? then t.right else t.left
    ensures Bids(Remove(t, t.bid.bidId)) + multiset{t.bid} == Bids(t)
    ensures Count(Remove(t, t.bid.bidId), t.bid.bidId) == Count(t, t.bid.bidId) - 1
    ensures IsBst(t) ==> IsBst(Remove(t, t.bid.bidId))
  {
    var l, c, r := t.left, t.bid, t.right;
    if l.Empty? {
      assert Remove(t, c.bidId) == r;
    } else {
      assert Remove(t, c.bidId) == l;
    }
  }

  /** The two-child case of RemovePresent: the successor's bid replaces the
      node's, which is the one bid that disappears. */
  lemma RemoveAtTwoChildren(t: Tree)
    requires t.Branch? && t.left.Branch? && t.right.Branch? && IsBst(t)
    ensures Bids(Remove(t, t.bid.bidId)) + multiset{t.bid} == Bids(t)
    ensures Count(Remove(t, t.bid.bidId), t.bid.bidId) == Count(t, t.bid.bidId) - 1
    ensures IsBst(Remove(t, t.bid.bidId))
  {
    var l, c, r := t.left, t.bid, t.right;
    var m, u := Leftmost(r), RemoveLeftmost(r);
    assert Remove(t, c.bidId) == Branch(l, m, u) by {
      RemoveTwoChildren(t);
    }
    assert Bids(u) + multiset{m} == Bids(r) &&
      Count(u, c.bidId) + (if m.bidId == c.bidId then 1 else 0) == Count(r, c.bidId) by {
      RemoveLeftmostContents(r);
      RemoveLeftmostCount(r, c.bidId);
    }
    assert IsBst(Branch(l, m, u)) by {
      SuccessorKeepsOrder(l, c, r);
    }
  }

  /** Moving the successor's bid up into the node, and cutting it out of the
      right subtree, keeps the ordering invariant: the successor is at least
      every bid on its right and above every bid on the left. */
  lemma SuccessorKeepsOrder(l: Tree, c: Bid, r: Tree)
    requires r.Branch? && IsBst(l) && IsBst(r)
    requires AllBelow(Bids(l), c.bidId) && NoneBelow(Bids(r), c.bidId)
    ensures IsBst(Branch(l, Leftmost(r), RemoveLeftmost(r)))
  {
    var m, u := Leftmost(r), RemoveLeftmost(r);
    assert IsBst(u) by {
      RemoveLeftmostPreservesBst(r);
    }
    assert NoneBelow(Bids(u), m.bidId) by {
      LeftmostIsMinimum(r);
      RemoveLeftmostContents(r);
      BoundsShrink(Bids(u), m, m.bidId);
    }
    assert AllBelow(Bids(l), m.bidId) by {
      LeftmostStored(r);
      assert !Less(m.bidId, c.bidId);
      forall d | d in Bids(l)
        ensures Less(d.bidId, m.bidId)
      {
        LessBelowAtLeast(d.bidId, c.bidId, m.bidId);
      }
    }
  }

  /** Removal keeps the ordering invariant whether or not the id is stored. */
  lemma RemovePreservesBst(t: Tree, id: string)
    requires IsBst(t)
    ensures IsBst(Remove(t, id))
  {
    if Count(t, id) > 0 {
      RemovePresent(t, id);
    } else {
      RemoveAbsent(t, id);
    }
  }

  /** With unique ids, a removed id can no longer be found. */
  lemma RemoveThenFind(t: Tree, id: string)
    requires IsBst(t) && Count(t, id) == 1
    ensures Find(Remove(t, id), id) == None
  {
    RemovePresent(t, id);
  }

  // ---------------------------------------------------------------------
  // Remove as written: the root pointer is never rebound

  /** removeNode replaces the node it is given (rather than returning it)
      exactly when that node holds the id and has at most one child. */
  predicate RootExcised(t: Tree, id: string)
  {
    t.Branch? && Compare(id, t.bid.bidId) == 0 && (t.left.Empty? || t.right.Empty?)
  }

  /** What the tree holds after the source's `Remove`, which discards
      removeNode's result: when the root itself is excised, the root pointer
      still designates the released node. Releasing memory is not modelled,
      so that node is read with the fields removeNode left as they were; in
      C++ the pointer dangles. Otherwise the root node is updated in place. */
  function RemoveAsWritten(t: Tree, id: string): Tree
  {
    if RootExcised(t, id) then t else Remove(t, id)
  }

  /** The source's Remove agrees with the rebinding one exactly when the
      root node is not excised; when it is, the removed bid stays visible in
      this model, which reads the released node as it was. */
  lemma RemoveAsWrittenDiverges(t: Tree, id: string)
    ensures RemoveAsWritten(t, id) == Remove(t, id) <==> !RootExcised(t, id)
    ensures RootExcised(t, id) ==> Find(RemoveAsWritten(t, id), id) == Some(t.bid)
  {
    if RootExcised(t, id) {
      var r := Remove(t, id);
      assert |Bids(r)| < |Bids(t)| by {
        assert r == t.left || r == t.right;
      }
    }
  }

  /** A single stored bid: in this model, which reads the released node as
      it was, the source's Remove leaves the bid in place, while the
      rebinding remove empties the tree. In C++ the node is deleted and the
      root pointer dangles. */
  lemma RemoveAsWrittenLeaf(b: Bid)
    ensures RemoveAsWritten(Branch(Empty, b, Empty), b.bidId) == Branch(Empty, b, Empty)
    ensures Remove(Branch(Empty, b, Empty), b.bidId) == Empty
  {
  }
}
