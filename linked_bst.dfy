/** The tree as the program builds it: heap nodes linked by `left` and
    `right` pointers under a `root` pointer, updated in place. Each node
    keeps a ghost footprint `Repr` and the ghost value `Content` of the
    subtree it heads; every method is proved against the value-level
    operations of `BidTree`. */
module LinkedBst {
  import opened StringOrder
  import opened BidTree

  /** One tree node: a bid and two owned, possibly null children. */
  class Node {
    var bid: Bid
    var left: Node?
    var right: Node?

    ghost var Repr: set<object>
    ghost var Content: Tree

    /** The nodes below this one form a tree: each child owns a footprint
        inside this one, the two footprints are disjoint and no node is its
        own descendant; `Content` is the value of the subtree. */
    ghost predicate Valid()
      reads this, Repr
      decreases Repr
      ensures Valid() ==> Content.Branch?
    {
      this in Repr &&
      (left != null ==>
        left in Repr && left.Repr <= Repr && this !in left.Repr && left.Valid()) &&
      (right != null ==>
        right in Repr && right.Repr <= Repr && this !in right.Repr && right.Valid()) &&
      (left != null && right != null ==> left.Repr !! right.Repr) &&
      Content.Branch? && Content.bid == bid &&
      Content.left == (if left == null then Empty else left.Content) &&
      Content.right == (if right == null then Empty else right.Content)
    }

    /** The subtree a possibly null pointer designates. */
    static ghost function Abs(n: Node?): Tree
      reads n
    {
      if n == null then Empty else n.Content
    }

    /** `Node(Bid aBid)`: a leaf holding the bid. */
    constructor (b: Bid)
      ensures Valid() && fresh(Repr)
      ensures Content == Branch(Empty, b, Empty)
    {
      bid := b;
      left := null;
      right := null;
      Repr := {this};
      Content := Branch(Empty, b, Empty);
    }
  }

  /** The tree object: the root pointer and the operations on it. */
  class BinarySearchTree {
    var root: Node?

    ghost var Repr: set<object>
    ghost var Content: Tree

    /** The root pointer heads a well-formed node structure (or is null) and
        `Content` is the tree it holds. */
    ghost predicate Valid()
      reads this, Repr
    {
      this in Repr &&
      (root != null ==>
        root in Repr && root.Repr <= Repr && this !in root.Repr && root.Valid()) &&
      Content == Node.Abs(root)
    }

    /** An empty tree. */
    constructor ()
      ensures Valid() && fresh(Repr)
      ensures Content == Empty
    {
      root := null;
      Repr := {this};
      Content := Empty;
    }

    /** Insert: a new root when the tree is empty, otherwise addNode from
        the root. */
    method Insert(b: Bid)
      requires Valid()
      modifies Repr
      ensures Valid() && fresh(Repr - old(Repr))
      ensures Content == BidTree.Insert(old(Content), b)
    {
      if root == null {
        root := new Node(b);
      } else {
        AddNode(root, b);
      }
      assert root.Valid() && this !in root.Repr;
      Repr := Repr + root.Repr;
      Content := root.Content;
    }

    /** addNode: descend left where the node's id compares greater, right
        otherwise, and hang a new leaf on the first null child. */
    method AddNode(node: Node, b: Bid)
      requires node.Valid()
      modifies node.Repr
      decreases node.Repr
      ensures node.Valid() && fresh(node.Repr - old(node.Repr))
      ensures node.Content == BidTree.Insert(old(node.Content), b)
    {
      if Compare(node.bid.bidId, b.bidId) > 0 {
        if node.left == null {
          node.left := new Node(b);
        } else {
          AddNode(node.left, b);
        }
        node.Repr := node.Repr + node.left.Repr;
      } else {
        if node.right == null {
          node.right := new Node(b);
        } else {
          AddNode(node.right, b);
        }
        node.Repr := node.Repr + node.right.Repr;
      }
      node.Content := Branch(Node.Abs(node.left), node.bid, Node.Abs(node.right));
    }

    /** removeNode: returns the subtree that replaces `node` once `id` is
        removed below it. When `node` itself is cut out (a leaf, or a node
        with one child) it is left as it was and its place goes to its
        child or to null; otherwise `node` is updated in place and
        returned. */
    method RemoveNode(node: Node?, id: string) returns (r: Node?)
      requires node != null ==> node.Valid()
      modifies if node == null then {} else node.Repr
      decreases if node == null then {} else node.Repr, 1
      ensures node == null ==> r == null
      ensures node != null && r != null ==> r.Valid() && r.Repr <= old(node.Repr)
      ensures Node.Abs(r) == BidTree.Remove(old(Node.Abs(node)), id)
      ensures node != null && RootExcised(old(node.Content), id) ==>
        node.Valid() && node.Repr == old(node.Repr) && node.Content == old(node.Content)
      ensures node != null && !RootExcised(old(node.Content), id) ==> r == node
    {
      if node == null {
        return null;
      }
      if Compare(id, node.bid.bidId) < 0 {
        RemoveBelow(node, id, true);
        r := node;
      } else if Compare(id, node.bid.bidId) > 0 {
        RemoveBelow(node, id, false);
        r := node;
      } else if node.left == null && node.right == null {
        r := null;
      } else if node.left != null && node.right == null {
        r := node.left;
      } else if node.right != null && node.left == null {
        r := node.right;
      } else {
        ReplaceBySuccessor(node);
        r := node;
      }
    }

    /** The descent of removeNode: the left (or right) child pointer is
        rebound to the result of removing `id` from that subtree. */
    method RemoveBelow(node: Node, id: string, toLeft: bool)
      requires node.Valid()
      modifies node.Repr
      decreases node.Repr, 0
      ensures node.Valid() && node.Repr == old(node.Repr)
      ensures node.Content == if toLeft
        then old(node.Content).(left := BidTree.Remove(old(node.Content).left, id))
        else old(node.Content).(right := BidTree.Remove(old(node.Content).right, id))
    {
      if toLeft {
        var l := RemoveNode(node.left, id);
        node.left := l;
      } else {
        var rt := RemoveNode(node.right, id);
        node.right := rt;
      }
      node.Content := Branch(Node.Abs(node.left), node.bid, Node.Abs(node.right));
    }

    /** The two-child case of removeNode: the node takes the bid of the
        leftmost node of its right subtree, and that bid's id is removed
        from the right subtree. */
    method ReplaceBySuccessor(node: Node)
      requires node.Valid() && node.left != null && node.right != null
      modifies node.Repr
      decreases node.Repr, 0
      ensures node.Valid() && node.Repr == old(node.Repr)
      ensures node.Content == Branch(old(node.Content).left, Leftmost(old(node.Content).right),
        BidTree.Remove(old(node.Content).right, Leftmost(old(node.Content).right).bidId))
    {
      var m := Successor(node.right);
      node.bid := m;
      var rt := RemoveNode(node.right, m.bidId);
      node.right := rt;
      node.Content := Branch(Node.Abs(node.left), node.bid, Node.Abs(node.right));
    }

    /** The loop of removeNode's two-child case: follow left pointers from
        `n` to the last node; its bid is the leftmost bid of the subtree,
        which on a search tree is a smallest one. */
    method Successor(n: Node) returns (m: Bid)
      requires n.Valid()
      ensures m == Leftmost(n.Content)
      ensures IsBst(n.Content) ==> NoneBelow(Bids(n.Content), m.bidId)
    {
      var temp: Node := n;
      while temp.left != null
        invariant temp.Valid()
        invariant Leftmost(temp.Content) == Leftmost(n.Content)
        decreases temp.Repr
      {
        temp := temp.left;
      }
      m := temp.bid;
      if IsBst(n.Content) {
        LeftmostIsMinimum(n.Content);
      }
    }

    /** Remove with the root pointer rebound to removeNode's result. */
    method Remove(id: string)
      requires Valid()
      modifies Repr
      ensures Valid() && Repr <= old(Repr)
      ensures Content == BidTree.Remove(old(Content), id)
    {
      var r := RemoveNode(root, id);
      assert r != null ==> r.Valid() && r in r.Repr && r.Repr <= Repr && this !in r.Repr;
      root := r;
      Content := Node.Abs(root);
    }

    /** Remove as the source writes it: removeNode's result is dropped, so
        the root pointer keeps designating the old root node. */
    method RemoveAsWritten(id: string)
      requires Valid()
      modifies Repr
      ensures Valid() && Repr <= old(Repr)
      ensures Content == BidTree.RemoveAsWritten(old(Content), id)
    {
      var _ := RemoveNode(root, id);
      Content := Node.Abs(root);
    }

    /** Search: walk down from the root, left when `id` sorts before the
        node's id, right otherwise, until a node with the id or a null
        pointer; a default bid when none is found. */
    method Search(id: string) returns (b: Bid)
      requires Valid()
      ensures b == Find(Content, id).GetOr(EmptyBid())
      ensures b.bidId != "" ==> b.bidId == id && b in Bids(Content)
      ensures Count(Content, id) == 0 ==> b == EmptyBid()
    {
      var current := root;
      while current != null
        invariant current != null ==> current.Valid()
        invariant Find(Content, id) == Find(Node.Abs(current), id)
        decreases if current == null then {} else current.Repr
      {
        if Compare(current.bid.bidId, id) == 0 {
          return current.bid;
        } else if Compare(id, current.bid.bidId) < 0 {
          current := current.left;
        } else {
          current := current.right;
        }
      }
      b := EmptyBid();
    }
  }
}
