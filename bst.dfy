/**
 * The unbalanced binary search tree of the Forest library: a map from keys to values kept
 * in linked `BinarySearchTreeNode` objects. The tree holds a ghost `shape`, the value of
 * module TreeShapes that the pointers spell out; every method is proved to change the
 * pointers, `Root` and `Count` as the function of TreeShapes that it mirrors says, and to
 * keep the search-tree ordering and `Count`.
 */
module BinarySearchTrees {
  import opened Wrappers
  import opened TreeShapes

  /** `BinaryTraversalMethod`: the order in which `GetNodes`, `GetKeys` and `GetValues` enumerate. */
  datatype BinaryTraversalMethod = PreOrderTraversal | InOrderTraversal | PostOrderTraversal

  type Tree = Shape<BinarySearchTreeNode>

  /** Every branch of `s` holds a node whose key is the branch's key. */
  predicate Keyed(s: Tree) {
    match s
    case Nil => true
    case Branch(l, n, k, r) => n.key == k && Keyed(l) && Keyed(r)
  }

  /** Following `Left` and `Right` from `x` spells out exactly the shape `s`. */
  ghost predicate Linked(x: BinarySearchTreeNode?, s: Tree)
    reads Nodes(s)`left, Nodes(s)`right
  {
    && x == NodeOf(s)
    && (s.Branch? ==> Linked(s.node.left, s.left) && Linked(s.node.right, s.right))
  }

  /** The sign of the comparer's verdict on two keys: the keys' natural order. */
  function Compare(x: int, y: int): int {
    if x > y then 1 else if x < y then -1 else 0
  }

  /** The value stored under each key: the dictionary the tree implements. */
  ghost function Values(s: Tree): (m: map<int, int>)
    reads Nodes(s)`value
    ensures m.Keys == Keys(s)
  {
    EntriesNodes(s);
    map k | k in Entries(s) :: Entries(s)[k].value
  }

  /** The node at the top of a subtree, or null for the empty one. */
  function NodeOf(s: Tree): BinarySearchTreeNode? {
    if s.Nil? then null else s.node
  }

  class BinarySearchTreeNode {
    const key: int
    var value: int
    var left: BinarySearchTreeNode?
    var right: BinarySearchTreeNode?
    var owner: BinarySearchTree?

    /** A node on its own: no children and no owner. */
    constructor (key: int, value: int)
      ensures this.key == key && this.value == value
      ensures left == null && right == null && owner == null
    {
      this.key := key;
      this.value := value;
      left, right, owner := null, null, null;
    }

    /** The node belongs to its owner, if it has one. */
    ghost predicate Owned()
      reads this, owner, if owner == null then {} else Nodes(owner.shape)
    {
      owner != null ==> owner.Valid() && this in Nodes(owner.shape)
    }

    /**
     * `GetMaximum`: the node reached by following `Right` from this one. It has no right
     * child and holds the largest key of this node's subtree; it is this node when `Right`
     * is null. A node without an owner is an invalid operation.
     */
    method GetMaximum() returns (r: Result<BinarySearchTreeNode>)
      requires Owned()
      ensures owner == null ==> r == Failure(InvalidOperation)
      ensures owner != null ==> r.Success?
      ensures r.Success? ==> r.value.right == null && (right == null ==> r.value == this)
      ensures r.Success? ==> owner != null && Find(owner.shape, key).Branch? && r.value == Rightmost(Find(owner.shape, key)).node
      ensures r.Success? ==> r.value in Nodes(owner.shape) && r.value.key in Keys(Find(owner.shape, key))
      ensures r.Success? ==> forall x :: x in Keys(Find(owner.shape, key)) ==> x <= r.value.key
    {
      if owner == null {
        return Failure(InvalidOperation);
      }
      var t := owner;
      OwnSubtree(t.root, t.shape, this);
      ghost var top := Find(t.shape, key);
      RightmostIsMaximum(top);
      KeyedExtremes(top);
      var node := this;
      ghost var sub := top;
      while node.right != null
        invariant sub.Branch? && Linked(node, sub) && Rightmost(sub) == Rightmost(top)
        decreases Size(sub)
      {
        node := node.right;
        sub := sub.right;
      }
      SubtreeKeys(t.shape, key);
      return Success(node);
    }

    /**
     * `GetMinimum`: the node reached by following `Left` from this one. It has no left child
     * and holds the smallest key of this node's subtree; it is this node when `Left` is
     * null. A node without an owner is an invalid operation.
     */
    method GetMinimum() returns (r: Result<BinarySearchTreeNode>)
      requires Owned()
      ensures owner == null ==> r == Failure(InvalidOperation)
      ensures owner != null ==> r.Success?
      ensures r.Success? ==> r.value.left == null && (left == null ==> r.value == this)
      ensures r.Success? ==> owner != null && Find(owner.shape, key).Branch? && r.value == Leftmost(Find(owner.shape, key)).node
      ensures r.Success? ==> r.value in Nodes(owner.shape) && r.value.key in Keys(Find(owner.shape, key))
      ensures r.Success? ==> forall x :: x in Keys(Find(owner.shape, key)) ==> r.value.key <= x
    {
      if owner == null {
        return Failure(InvalidOperation);
      }
      var t := owner;
      OwnSubtree(t.root, t.shape, this);
      ghost var top := Find(t.shape, key);
      LeftmostIsMinimum(top);
      KeyedExtremes(top);
      var node := this;
      ghost var sub := top;
      while node.left != null
        invariant sub.Branch? && Linked(node, sub) && Leftmost(sub) == Leftmost(top)
        decreases Size(sub)
      {
        node := node.left;
        sub := sub.left;
      }
      SubtreeKeys(t.shape, key);
      return Success(node);
    }

    /**
     * `GetPredecessor`: the node of the owning tree with the largest key smaller than this
     * node's, or null when there is none. With a left child it is the maximum of the left
     * subtree; otherwise the search for this key is repeated from the owner's root and the
     * last node where it turned right is the answer.
     */
    method GetPredecessor() returns (r: Result<BinarySearchTreeNode?>)
      requires Owned()
      ensures owner == null ==> r == Failure(InvalidOperation)
      ensures owner != null ==> r.Success?
      ensures r.Success? ==> owner != null && Find(owner.shape, key).Branch? && r.value == NodeOf(Predecessor(owner.shape, key))
      ensures r.Success? && r.value != null ==> r.value in Nodes(owner.shape) && r.value.key < key
      ensures r.Success? ==> forall x :: x in Keys(owner.shape) && x < key ==> r.value != null && x <= r.value.key
    {
      if owner == null {
        return Failure(InvalidOperation);
      }
      var t := owner;
      OwnSubtree(t.root, t.shape, this);
      PredecessorIsGreatestBelow(t.shape, key);
      if left != null {
        ghost var top := Find(t.shape, key);
        FindInside(t.shape, key, left.key);
        KeyedExtremes(top.left);
        SubtreeKeys(t.shape, key);
        assert left in Nodes(top);
        var m := left.GetMaximum();
        return Success(m.value);
      }
      var current := t.root;
      var predecessor: BinarySearchTreeNode? := null;
      ghost var sub := t.shape;
      ghost var candidate: Tree := Nil;
      while current != null
        invariant Linked(current, sub) && Keyed(sub)
        invariant predecessor == NodeOf(candidate) && Keyed(candidate)
        invariant PredecessorFrom(sub, key, candidate) == PredecessorFrom(t.shape, key, Nil)
        decreases Size(sub)
      {
        if key > current.key {
          predecessor := current;
          candidate := sub;
          current := current.right;
          sub := sub.right;
        } else if key < current.key {
          current := current.left;
          sub := sub.left;
        } else {
          break;
        }
      }
      return Success(predecessor);
    }

    /**
     * `GetSuccessor`: the node of the owning tree with the smallest key larger than this
     * node's, or null when there is none; the mirror image of `GetPredecessor`.
     */
    method GetSuccessor() returns (r: Result<BinarySearchTreeNode?>)
      requires Owned()
      ensures owner == null ==> r == Failure(InvalidOperation)
      ensures owner != null ==> r.Success?
      ensures r.Success? ==> owner != null && Find(owner.shape, key).Branch? && r.value == NodeOf(Successor(owner.shape, key))
      ensures r.Success? && r.value != null ==> r.value in Nodes(owner.shape) && key < r.value.key
      ensures r.Success? ==> forall x :: x in Keys(owner.shape) && key < x ==> r.value != null && r.value.key <= x
    {
      if owner == null {
        return Failure(InvalidOperation);
      }
      var t := owner;
      OwnSubtree(t.root, t.shape, this);
      SuccessorIsLeastAbove(t.shape, key);
      if right != null {
        ghost var top := Find(t.shape, key);
        FindInside(t.shape, key, right.key);
        KeyedExtremes(top.right);
        SubtreeKeys(t.shape, key);
        assert right in Nodes(top);
        var m := right.GetMinimum();
        return Success(m.value);
      }
      var current := t.root;
      var successor: BinarySearchTreeNode? := null;
      ghost var sub := t.shape;
      ghost var candidate: Tree := Nil;
      while current != null
        invariant Linked(current, sub) && Keyed(sub)
        invariant successor == NodeOf(candidate) && Keyed(candidate)
        invariant SuccessorFrom(sub, key, candidate) == SuccessorFrom(t.shape, key, Nil)
        decreases Size(sub)
      {
        if key < current.key {
          successor := current;
          candidate := sub;
          current := current.left;
          sub := sub.left;
        } else if key > current.key {
          current := current.right;
          sub := sub.right;
        } else {
          break;
        }
      }
      return Success(successor);
    }
  }

  class BinarySearchTree {
    var root: BinarySearchTreeNode?
    var count: nat
    ghost var shape: Tree

    /**
     * The pointers from `Root` spell out `shape`, whose keys are in search-tree order;
     * `Count` is its number of nodes and every node is owned by this tree.
     */
    ghost predicate Valid()
      reads this, Nodes(shape)`left, Nodes(shape)`right, Nodes(shape)`owner
    {
      && Linked(root, shape) && Keyed(shape) && Ordered(shape)
      && count == Size(shape)
      && (forall n :: n in Nodes(shape) ==> n.owner == this)
    }

    /** An empty tree. */
    constructor ()
      ensures Valid() && shape == Nil && root == null && count == 0
    {
      root := null;
      count := 0;
      shape := Nil;
    }

    /** `FindNode(key)`: the node holding `key`, or null when the key is absent. */
    method FindNode(key: int) returns (node: BinarySearchTreeNode?)
      requires Valid()
      ensures node == NodeOf(Find(shape, key))
      ensures node != null <==> key in Keys(shape)
      ensures node != null ==> node in Nodes(shape) && node.key == key
    {
      FindIsMember(shape, key);
      var current := root;
      ghost var sub := shape;
      while current != null
        invariant Linked(current, sub) && Keyed(sub) && Find(sub, key) == Find(shape, key)
        decreases Size(sub)
      {
        if key > current.key {
          current := current.right;
          sub := sub.right;
        } else if key < current.key {
          current := current.left;
          sub := sub.left;
        } else {
          return current;
        }
      }
      return null;
    }

    /**
     * `FindNode(key, out parent)`: the node holding `key` (or null) and the last node the
     * search left before it, which is the found node's parent (null at the root).
     */
    method FindNodeWithParent(key: int) returns (node: BinarySearchTreeNode?, parent: BinarySearchTreeNode?)
      requires Valid()
      ensures node == NodeOf(Find(shape, key)) && parent == NodeOf(FindParent(shape, key, Nil))
      ensures node != null <==> key in Keys(shape)
      ensures node != null ==> node in Nodes(shape) && node.key == key
      ensures node != null && parent == null ==> node == root
      ensures node != null && parent != null ==>
                parent in Nodes(shape) && (if key < parent.key then parent.left == node else parent.right == node)
    {
      FindIsMember(shape, key);
      parent := null;
      var current := root;
      ghost var sub := shape;
      ghost var above: Tree := Nil;
      while current != null
        invariant Linked(current, sub) && Keyed(sub) && Nodes(sub) <= Nodes(shape)
        invariant parent == NodeOf(above) && Keyed(above)
        invariant above.Nil? ==> sub == shape && current == root
        invariant above.Branch? ==> above.node in Nodes(shape) && Linked(parent, above)
        invariant above.Branch? ==> sub == if key < above.key then above.left else above.right
        invariant Find(sub, key) == Find(shape, key)
        invariant FindParent(sub, key, above) == FindParent(shape, key, Nil)
        decreases Size(sub)
      {
        if key > current.key {
          parent := current;
          above := sub;
          current := current.right;
          sub := sub.right;
        } else if key < current.key {
          parent := current;
          above := sub;
          current := current.left;
          sub := sub.left;
        } else {
          return current, parent;
        }
      }
      return null, parent;
    }

    /** The indexer's getter: the value under `key`, or a missing key. */
    method Get(key: int) returns (r: Result<int>)
      requires Valid()
      ensures r.Success? <==> key in Values(shape)
      ensures r.Success? ==> r.value == Values(shape)[key]
      ensures r.Failure? ==> r.error == KeyNotFound
    {
      EntriesFind(shape, key);
      var node := FindNode(key);
      if node == null {
        return Failure(KeyNotFound);
      }
      return Success(node.value);
    }

    /** `TryGetValue`: whether `key` is present, with its value or else the default 0. */
    method TryGetValue(key: int) returns (found: bool, value: int)
      requires Valid()
      ensures found <==> key in Values(shape)
      ensures found ==> value == Values(shape)[key]
      ensures !found ==> value == 0
    {
      EntriesFind(shape, key);
      var node := FindNode(key);
      if node != null {
        return true, node.value;
      }
      return false, 0;
    }

    /** `ContainsKey`: whether a node holds `key`. */
    method ContainsKey(key: int) returns (r: bool)
      requires Valid()
      ensures r <==> key in Keys(shape)
    {
      var node := FindNode(key);
      return node != null;
    }

    /**
     * `Contains(item)`: whether this very node object is in the tree (a different node with
     * the same key does not count); a null item is an argument error.
     */
    method Contains(item: BinarySearchTreeNode?) returns (r: Result<bool>)
      requires Valid()
      ensures item == null ==> r == Failure(ArgumentNull)
      ensures item != null ==> r == Success(item in Nodes(shape))
    {
      if item == null {
        return Failure(ArgumentNull);
      }
      var node := FindNode(item.key);
      if item in Nodes(shape) {
        FoundByKey(shape, item);
      }
      return Success(item == node);
    }

    /** `GetMaximum` of the tree: the node with the largest key, or null when the tree is empty. */
    method GetMaximum() returns (r: BinarySearchTreeNode?)
      requires Valid()
      ensures r == null <==> shape.Nil?
      ensures r != null ==> r in Nodes(shape) && r.key in Keys(shape)
      ensures r != null ==> forall x :: x in Keys(shape) ==> x <= r.key
    {
      if root == null {
        return null;
      }
      var m := root.GetMaximum();
      return m.value;
    }

    /** `GetMinimum` of the tree: the node with the smallest key, or null when the tree is empty. */
    method GetMinimum() returns (r: BinarySearchTreeNode?)
      requires Valid()
      ensures r == null <==> shape.Nil?
      ensures r != null ==> r in Nodes(shape) && r.key in Keys(shape)
      ensures r != null ==> forall x :: x in Keys(shape) ==> r.key <= x
    {
      if root == null {
        return null;
      }
      var m := root.GetMinimum();
      return m.value;
    }

    // -------------------------------------------------------------------------------------
    // Insertion
    // -------------------------------------------------------------------------------------

    /**
     * The search loop the indexer's setter and both `Add` overloads share: it stops at the
     * node holding `key`, or falls off the tree below `parent`, `result` recording on which
     * side of `parent` it fell (the sign of the last comparison).
     */
    method Locate(key: int) returns (current: BinarySearchTreeNode?, parent: BinarySearchTreeNode?, result: int)
      requires Valid()
      ensures current == NodeOf(Find(shape, key)) && parent == NodeOf(FindParent(shape, key, Nil))
      ensures current != null <==> key in Keys(shape)
      ensures current != null ==> current in Nodes(shape) && current.key == key
      ensures parent != null ==> parent in Nodes(shape)
      ensures current == null && parent != null ==> result == Compare(key, parent.key) && result != 0
      ensures current == null && parent == null ==> shape.Nil?
    {
      FindIsMember(shape, key);
      current := root;
      parent := null;
      result := 0;
      ghost var sub := shape;
      ghost var above: Tree := Nil;
      while current != null
        invariant Linked(current, sub) && Keyed(sub) && Nodes(sub) <= Nodes(shape)
        invariant parent == NodeOf(above) && Keyed(above) && Nodes(above) <= Nodes(shape)
        invariant above.Nil? ==> sub == shape
        invariant above.Branch? ==> result == Compare(key, above.key) && result != 0
        invariant Find(sub, key) == Find(shape, key)
        invariant FindParent(sub, key, above) == FindParent(shape, key, Nil)
        decreases Size(sub)
      {
        result := Compare(key, current.key);
        if result > 0 {
          parent, above := current, sub;
          current, sub := current.right, sub.right;
        } else if result < 0 {
          parent, above := current, sub;
          current, sub := current.left, sub.left;
        } else {
          return;
        }
      }
      LinkedTop(current, sub);
    }

    /**
     * The attach step the three insertions share: the node becomes owned by this tree and
     * hangs below `parent` on the side `result` names (or becomes the root of an empty
     * tree), and `Count` grows by one.
     */
    method Hang(node: BinarySearchTreeNode, parent: BinarySearchTreeNode?, result: int)
      requires Valid() && node !in Nodes(shape) && node.left == null && node.right == null
      requires Find(shape, node.key).Nil? && parent == NodeOf(FindParent(shape, node.key, Nil))
      requires parent != null ==> result == Compare(node.key, parent.key)
      requires parent == null ==> shape.Nil?
      modifies this, node`owner, ({parent} - {null})`left, ({parent} - {null})`right
      ensures Valid() && node.owner == this
      ensures shape == Insert(old(shape), node, node.key) && count == old(count) + 1
      ensures Find(shape, node.key) == Branch(Nil, node, node.key, Nil)
      ensures Values(shape) == old(Values(shape))[node.key := node.value]
    {
      ghost var s := shape;
      NodesAllocated(s);
      FindIsMember(s, node.key);
      InsertShape(s, node, node.key);
      assert forall m :: m in Nodes(s) ==> m.owner == this;
      node.owner := this;
      count := count + 1;
      shape := Insert(s, node, node.key);
      Link(node, parent, result, s);
      assert forall m :: m in Nodes(s) ==> m.owner == this;
      ValuesFrame(s);
      ValuesInsert(s, node, node.key);
    }

    /** The pointer writes of `Hang`: `parent`'s child on `result`'s side, or `Root`, becomes `node`. */
    method Link(node: BinarySearchTreeNode, parent: BinarySearchTreeNode?, result: int, ghost s: Tree)
      requires Linked(root, s) && Keyed(s) && Ordered(s)
      requires node !in Nodes(s) && node.left == null && node.right == null
      requires Find(s, node.key).Nil? && parent == NodeOf(FindParent(s, node.key, Nil))
      requires parent != null ==> result == Compare(node.key, parent.key)
      requires parent == null ==> s.Nil?
      modifies this`root, ({parent} - {null})`left, ({parent} - {null})`right
      ensures Linked(root, Insert(s, node, node.key))
    {
      var key := node.key;
      KeyedParent(s, key, Nil);
      KeyedDistinct(s);
      if parent != null {
        ParentPlace(s, key);
        if result > 0 {
          parent.right := node;
        } else if result < 0 {
          parent.left := node;
        }
      } else {
        root := node;
      }
      InsertLinked(s, key, node);
    }

    /**
     * The indexer's setter: overwrites the value of the node holding `key`, or else hangs a
     * new node, owned by this tree, where the search for `key` fell off the tree.
     */
    method Set(key: int, value: int)
      requires Valid()
      modifies this, Nodes(shape)
      ensures Valid()
      ensures Values(shape) == old(Values(shape))[key := value]
      ensures old(key in Keys(shape)) ==> shape == old(shape) && count == old(count)
      ensures old(key !in Keys(shape)) ==>
                && Find(shape, key).Branch? && fresh(Find(shape, key).node)
                && shape == Insert(old(shape), Find(shape, key).node, key) && count == old(count) + 1
    {
      NodesAllocated(shape);
      var current, parent, result := Locate(key);
      if current != null {
        current.value := value;
        ValuesUpdate(shape, current);
        return;
      }
      var node := new BinarySearchTreeNode(key, value);
      Hang(node, parent, result);
    }

    /**
     * `Add(key, value)`: hangs a new node, owned by this tree, where the search for `key`
     * fell off the tree; a key already present is an argument error that changes nothing.
     */
    method Add(key: int, value: int) returns (r: Result<()>)
      requires Valid()
      modifies this, Nodes(shape)
      ensures Valid()
      ensures r.Success? <==> old(key !in Keys(shape))
      ensures r.Failure? ==> r.error == Argument && unchanged(this) && Values(shape) == old(Values(shape))
      ensures r.Success? ==>
                && Find(shape, key).Branch? && fresh(Find(shape, key).node)
                && shape == Insert(old(shape), Find(shape, key).node, key) && count == old(count) + 1
                && Values(shape) == old(Values(shape))[key := value]
    {
      NodesAllocated(shape);
      var current, parent, result := Locate(key);
      if current != null {
        return Failure(Argument);
      }
      var node := new BinarySearchTreeNode(key, value);
      Hang(node, parent, result);
      return Success(());
    }

    /**
     * `Add(item)`: hangs the given node where the search for its key fell off the tree and
     * makes this tree its owner. A null item, an item owned by a tree, or a key already
     * present is an error that changes nothing.
     */
    method AddNode(item: BinarySearchTreeNode?) returns (r: Result<()>)
      requires Valid()
      requires item != null && item.owner == null ==> item.left == null && item.right == null
      modifies this, Nodes(shape), item
      ensures Valid()
      ensures item == null ==> r == Failure(ArgumentNull)
      ensures item != null && old(item.owner) != null ==> r == Failure(InvalidOperation)
      ensures item != null && old(item.owner) == null && old(item.key in Keys(shape)) ==> r == Failure(Argument)
      ensures r.Failure? ==> unchanged(this) && Values(shape) == old(Values(shape)) && (item != null ==> unchanged(item))
      ensures r.Success? ==>
                && item != null && old(item.owner) == null && old(item.key !in Keys(shape))
                && item.owner == this && Find(shape, item.key).Branch? && Find(shape, item.key).node == item
                && shape == Insert(old(shape), item, item.key) && count == old(count) + 1
                && Values(shape) == old(Values(shape))[item.key := item.value]
    {
      if item == null {
        return Failure(ArgumentNull);
      }
      if item.owner != null {
        return Failure(InvalidOperation);
      }
      NodesAllocated(shape);
      var current, parent, result := Locate(item.key);
      if current != null {
        return Failure(Argument);
      }
      Hang(item, parent, result);
      return Success(());
    }

    // -------------------------------------------------------------------------------------
    // Removal
    // -------------------------------------------------------------------------------------

    /**
     * `Remove(key)`: takes the node holding `key` out of the tree, reporting whether there
     * was one; an absent key changes nothing.
     */
    method Remove(key: int) returns (r: bool)
      requires Valid()
      modifies this, Nodes(shape)`left, Nodes(shape)`right, Nodes(shape)`owner
      ensures Valid() && r == old(key in Keys(shape))
      ensures shape == TreeShapes.Remove(old(shape), key) && count == (if r then old(count) - 1 else old(count))
      ensures Values(shape) == old(Values(shape)) - {key}
      ensures r ==> old(Find(shape, key)).Branch? && old(Find(shape, key)).node.left == null
                    && old(Find(shape, key)).node.right == null && old(Find(shape, key)).node.owner == null
    {
      NodesAllocated(shape);
      var node, parent := FindNodeWithParent(key);
      if node != null {
        RemoveNode(node, parent);
        return true;
      }
      FindIsMember(shape, key);
      RemoveAbsent(shape, key);
      RemoveAbsentKey(Values(shape), key);
      return false;
    }

    /**
     * `Remove(node)`: takes this very node out of the tree when it is the node the search
     * for its key finds, reporting whether it was; a null node is an argument error.
     */
    method RemoveItem(item: BinarySearchTreeNode?) returns (r: Result<bool>)
      requires Valid()
      modifies this, Nodes(shape)`left, Nodes(shape)`right, Nodes(shape)`owner
      ensures Valid()
      ensures item == null ==> r == Failure(ArgumentNull)
      ensures item != null ==> r == Success(old(item in Nodes(shape)))
      ensures r == Success(true) ==>
                && shape == TreeShapes.Remove(old(shape), item.key) && count == old(count) - 1
                && Values(shape) == old(Values(shape)) - {item.key}
                && item.left == null && item.right == null && item.owner == null
      ensures r != Success(true) ==> shape == old(shape) && root == old(root) && count == old(count)
    {
      if item == null {
        return Failure(ArgumentNull);
      }
      NodesAllocated(shape);
      var node, parent := FindNodeWithParent(item.key);
      if item in Nodes(shape) {
        FoundByKey(shape, item);
      }
      if item == node {
        RemoveNode(item, parent);
        return Success(true);
      }
      return Success(false);
    }

    /**
     * `RemoveNode`: the node the search for its key found, with the parent the search
     * reported, is replaced by one of the three `Replace` steps, then loses its children and
     * its owner, and `Count` drops by one.
     */
    method RemoveNode(node: BinarySearchTreeNode, parent: BinarySearchTreeNode?)
      requires Valid() && Find(shape, node.key).Branch? && Find(shape, node.key).node == node
      requires parent == NodeOf(FindParent(shape, node.key, Nil))
      modifies this, Nodes(shape)`left, Nodes(shape)`right, node`owner
      ensures Valid() && shape == TreeShapes.Remove(old(shape), node.key) && count == old(count) - 1
      ensures node.left == null && node.right == null && node.owner == null
      ensures Values(shape) == old(Values(shape)) - {node.key}
    {
      ghost var s, key := shape, node.key;
      NodesAllocated(s);
      FindIsMember(s, key);
      ReplaceNode(node, parent);
      label Replaced:
      count := count - 1;
      shape := TreeShapes.Remove(s, key);
      RemoveShape(s, node);
      assert forall m :: m in Nodes(shape) ==> m.owner == this && m != node;
      node.left := null;
      node.right := null;
      node.owner := null;
      LinkedFrame@Replaced(shape);
      assert forall m :: m in Nodes(s) ==> m.value == old(m.value);
      ValuesRemoved(s, key);
    }

    /**
     * The first half of `RemoveNode`: the choice among the three `Replace` steps by the
     * shape of the node's right subtree.
     */
    method ReplaceNode(node: BinarySearchTreeNode, parent: BinarySearchTreeNode?)
      requires Valid() && Find(shape, node.key).Branch? && Find(shape, node.key).node == node
      requires parent == NodeOf(FindParent(shape, node.key, Nil))
      modifies this`root, Nodes(shape)`left, Nodes(shape)`right
      ensures Linked(root, TreeShapes.Remove(shape, node.key))
    {
      if node.right == null {
        ReplaceNodeWithLeftNode(node, parent);
      } else if node.right.left == null {
        ReplaceNodeWithRightNode(node, parent);
      } else {
        ReplaceNodeWithMinimumNode(node, parent);
      }
    }

    /**
     * `ReplaceNodeWithLeftNode`: a node without a right child is replaced, under its parent
     * or as the root, by its left child.
     */
    method ReplaceNodeWithLeftNode(node: BinarySearchTreeNode, parent: BinarySearchTreeNode?)
      requires Valid() && Find(shape, node.key).Branch? && Find(shape, node.key).node == node
      requires parent == NodeOf(FindParent(shape, node.key, Nil)) && node.right == null
      modifies this`root, Nodes(shape)`left, Nodes(shape)`right
      ensures Linked(root, TreeShapes.Remove(shape, node.key))
    {
      ghost var s, key := shape, node.key;
      ghost var f := Find(s, key);
      RemovePlace(root, s, key);
      RemoveReplaces(s, key);
      assert Linked(node.left, f.left) && RemoveRoot(f) == f.left;
      if node == root {
        root := node.left;
      } else {
        var result := Compare(parent.key, node.key);
        if result > 0 {
          parent.left := node.left;
        } else if result < 0 {
          parent.right := node.left;
        }
      }
      LinkedFrame(f.left);
      if parent != null {
        Relink(s, key, f.left);
      }
    }

    /**
     * `ReplaceNodeWithRightNode`: a node whose right child has no left child is replaced,
     * under its parent or as the root, by that right child, which adopts the node's left
     * subtree.
     */
    method ReplaceNodeWithRightNode(node: BinarySearchTreeNode, parent: BinarySearchTreeNode?)
      requires Valid() && Find(shape, node.key).Branch? && Find(shape, node.key).node == node
      requires parent == NodeOf(FindParent(shape, node.key, Nil))
      requires node.right != null && node.right.left == null
      modifies this`root, Nodes(shape)`left, Nodes(shape)`right
      ensures Linked(root, TreeShapes.Remove(shape, node.key))
    {
      ghost var s, key := shape, node.key;
      ghost var f := Find(s, key);
      RemovePlace(root, s, key);
      RemoveReplaces(s, key);
      ghost var fl, fr := f.left, f.right;
      assert Linked(node.left, fl) && Linked(node.right, fr);
      assert fr.Branch? && Linked(fr.node.left, fr.left) && fr.left.Nil? && Linked(fr.node.right, fr.right);
      assert RemoveRoot(f) == Branch(fl, fr.node, fr.key, fr.right);
      node.right.left := node.left;
      if node == root {
        root := node.right;
      } else {
        var result := Compare(parent.key, node.key);
        if result > 0 {
          parent.left := node.right;
        } else if result < 0 {
          parent.right := node.right;
        }
      }
      LinkedFrame(fl);
      LinkedFrame(fr.right);
      LinkedBranch(fl, fr.node, fr.key, fr.right);
      if parent != null {
        Relink(s, key, RemoveRoot(f));
      }
    }

    /**
     * `ReplaceNodeWithMinimumNode`: a node whose right child has a left child is replaced,
     * under its parent or as the root, by the minimum of its right subtree, found by
     * following `Left`; the minimum's parent adopts the minimum's right subtree and the
     * minimum adopts both of the node's children.
     */
    method ReplaceNodeWithMinimumNode(node: BinarySearchTreeNode, parent: BinarySearchTreeNode?)
      requires Valid() && Find(shape, node.key).Branch? && Find(shape, node.key).node == node
      requires parent == NodeOf(FindParent(shape, node.key, Nil))
      requires node.right != null && node.right.left != null
      modifies this`root, Nodes(shape)`left, Nodes(shape)`right
      ensures Linked(root, TreeShapes.Remove(shape, node.key))
    {
      ghost var s, key := shape, node.key;
      ghost var f := Find(s, key);
      RemovePlace(root, s, key);
      RemoveReplaces(s, key);
      ghost var fr := f.right;
      assert Linked(node.right, fr) && fr.Branch? && Linked(fr.node.left, fr.left) && fr.left.Branch?;
      var minimum := node.right.left;
      var minimumParent := node.right;
      ghost var mpsub, msub := fr, fr.left;
      while minimum.left != null
        invariant mpsub.Branch? && msub.Branch? && mpsub.left == msub && Distinct(mpsub)
        invariant Linked(minimumParent, mpsub) && Linked(minimum, msub) && Nodes(mpsub) <= Nodes(fr)
        invariant MinimumParent(fr) == MinimumParent(mpsub)
        decreases Size(msub)
      {
        minimumParent, mpsub := minimum, msub;
        minimum, msub := minimum.left, msub.left;
      }
      assert MinimumParent(fr) == mpsub;
      minimumParent.left := minimum.right;
      minimum.left := node.left;
      minimum.right := node.right;
      if node == root {
        root := minimum;
      } else {
        var result := Compare(parent.key, node.key);
        if result > 0 {
          parent.left := minimum;
        } else if result < 0 {
          parent.right := minimum;
        }
      }
      MinimumLinked(f, mpsub);
      if parent != null {
        Relink(s, key, RemoveRoot(f));
      }
    }

    /**
     * `Clear`: every node, enumerated in post-order, loses its children and its owner; the
     * tree is left empty.
     */
    method Clear()
      requires Valid()
      modifies this, Nodes(shape)`left, Nodes(shape)`right, Nodes(shape)`owner
      ensures Valid() && shape == Nil && root == null && count == 0
      ensures forall n :: n in old(Nodes(shape)) ==> n.left == null && n.right == null && n.owner == null
    {
      ghost var s := shape;
      var nodes := EnumeratePostOrder();
      PostOrderNodes(s);
      for i := 0 to |nodes|
        invariant forall n :: n in nodes[..i] ==> n.left == null && n.right == null && n.owner == null
      {
        nodes[i].left := null;
        nodes[i].right := null;
        nodes[i].owner := null;
        assert nodes[..i + 1] == nodes[..i] + [nodes[i]];
      }
      assert nodes[..|nodes|] == nodes;
      root := null;
      count := 0;
      shape := Nil;
    }

    // -------------------------------------------------------------------------------------
    // Traversals
    // -------------------------------------------------------------------------------------

    /**
     * `EnumerateInOrder`: the nodes in in-order, produced with an explicit stack (a null
     * sentinel at the bottom) onto which the left spine is pushed before each node is
     * emitted and its right subtree entered.
     */
    method EnumerateInOrder() returns (nodes: seq<BinarySearchTreeNode>)
      requires Valid()
      ensures nodes == InOrder(shape)
    {
      ghost var total := InOrder(shape);
      var stack: seq<BinarySearchTreeNode?> := [null];
      ghost var ps: seq<Tree> := [];
      nodes := [];
      var current := root;
      ghost var sub := shape;
      while current != null
        invariant Linked(current, sub) && (current != null ==> Spine(stack, ps))
        invariant nodes + InOrderPending(sub, ps) == total
        invariant current == null ==> ps == [] && sub.Nil?
        decreases |total| - |nodes|
      {
        ghost var n0 := |nodes|;
        while current != null
          invariant Linked(current, sub) && Spine(stack, ps) && (ps != [] || current != null)
          invariant nodes + InOrderPending(sub, ps) == total
          decreases Size(sub)
        {
          InOrderDescend(sub, ps);
          SpinePush(sub, stack, ps);
          stack := [current] + stack;
          ps := [sub] + ps;
          current := current.left;
          sub := sub.left;
        }
        SpinePop(stack, ps);
        InOrderEmit(nodes, total, ps);
        current := stack[0];
        stack := stack[1..];
        sub := ps[0];
        ps := ps[1..];
        while current != null
          invariant current != null ==> Spine(stack, ps) && sub.Branch? && Linked(current, sub)
          invariant current != null ==> nodes + ([current] + InOrderPending(sub.right, ps)) == total
          invariant current == null ==> nodes == total && ps == [] && sub.Nil? && |nodes| > n0
          invariant |nodes| >= n0
          decreases |total| - |nodes|
        {
          Emitted(nodes, current, InOrderPending(sub.right, ps), total);
          nodes := nodes + [current];
          if current.right != null {
            current := current.right;
            sub := sub.right;
            break;
          }
          SpinePop(stack, ps);
          if ps != [] {
            InOrderEmit(nodes, total, ps);
            sub := ps[0];
            ps := ps[1..];
          } else {
            sub := Nil;
          }
          current := stack[0];
          stack := stack[1..];
        }
      }
    }

    /**
     * `EnumeratePreOrder`: the nodes in pre-order; each node is emitted on the way down the
     * left spine while its right child, if any, is pushed for later.
     */
    method EnumeratePreOrder() returns (nodes: seq<BinarySearchTreeNode>)
      requires Valid()
      ensures nodes == PreOrder(shape)
    {
      ghost var total := PreOrder(shape);
      var stack: seq<BinarySearchTreeNode?> := [null];
      ghost var ps: seq<Tree> := [];
      nodes := [];
      var current := root;
      ghost var sub := shape;
      while current != null
        invariant Linked(current, sub) && (current != null ==> Spine(stack, ps))
        invariant nodes + PreOrderPending(sub, ps) == total
        invariant current == null ==> ps == [] && sub.Nil?
        decreases |total| - |nodes|
      {
        ghost var n0 := |nodes|;
        while current != null
          invariant Linked(current, sub) && Spine(stack, ps)
          invariant nodes + PreOrderPending(sub, ps) == total
          invariant |nodes| >= n0 && (current == null ==> |nodes| > n0)
          decreases Size(sub)
        {
          PreOrderEmit(nodes, total, sub, ps);
          nodes := nodes + [current];
          if current.right != null {
            SpinePush(sub.right, stack, ps);
            stack := [current.right] + stack;
            ps := [sub.right] + ps;
          }
          current := current.left;
          sub := sub.left;
        }
        LinkedTop(current, sub);
        SpinePop(stack, ps);
        if ps != [] {
          PreOrderNext(nodes, total, ps);
          sub := ps[0];
          ps := ps[1..];
        }
        current := stack[0];
        stack := stack[1..];
      }
    }

    /**
     * `EnumeratePostOrder`: the nodes in post-order. The stack holds `PostOrderNode`
     * entries: a node to emit once its subtrees are done, or a right child whose subtree is
     * still to be walked; the walk ends when the sentinel is popped.
     */
    method EnumeratePostOrder() returns (nodes: seq<BinarySearchTreeNode>)
      requires Valid()
      ensures nodes == PostOrder(shape)
    {
      ghost var total := PostOrder(shape);
      var stack: seq<Option<PostOrderNode>> := [None];
      ghost var ps: seq<(Tree, bool)> := [];
      nodes := [];
      var current := root;
      ghost var sub := shape;
      while current != null
        invariant Linked(current, sub) && EntrySpine(stack, ps)
        invariant nodes + PostOrderPending(sub, ps) == total
        invariant current == null ==> ps == [] && sub.Nil?
        decreases 2 * Size(sub) + Weight(ps)
      {
        ghost var m0 := 2 * Size(sub) + Weight(ps);
        while current != null
          invariant Linked(current, sub) && EntrySpine(stack, ps)
          invariant nodes + PostOrderPending(sub, ps) == total
          invariant 2 * Size(sub) + Weight(ps) + (if current == null then 1 else 0) <= m0
          decreases Size(sub)
        {
          PostOrderPush(sub, stack, ps);
          stack := [Some(PostOrderNode(current, false))] + stack;
          ps := [(sub, false)] + ps;
          if current.right != null {
            stack := [Some(PostOrderNode(current.right, true))] + stack;
            ps := [(sub.right, true)] + ps;
          }
          current := current.left;
          sub := sub.left;
        }
        while true
          invariant EntrySpine(stack, ps) && sub.Nil? && current == null
          invariant nodes + PostOrderPending(Nil, ps) == total
          invariant Weight(ps) < m0
          decreases |ps|
        {
          EntrySpinePop(stack, ps);
          var node := stack[0];
          stack := stack[1..];
          if node.None? {
            assert PostOrderPending(Nil, ps) == [];
            return;
          }
          PostOrderNext(nodes, total, ps);
          current := node.value.node;
          ghost var top := ps[0];
          ps := ps[1..];
          if node.value.isRight {
            sub := top.0;
            break;
          }
          nodes := nodes + [current];
          current := null;
        }
      }
    }

    /** `GetNodes(traversal)`: the nodes in the order the traversal method names. */
    method GetNodes(traversal: BinaryTraversalMethod) returns (nodes: seq<BinarySearchTreeNode>)
      requires Valid()
      ensures nodes == Traversal(shape, traversal)
    {
      match traversal
      case PreOrderTraversal =>
        nodes := EnumeratePreOrder();
      case InOrderTraversal =>
        nodes := EnumerateInOrder();
      case PostOrderTraversal =>
        nodes := EnumeratePostOrder();
    }

    /**
     * `GetKeys(method)`: the keys of the nodes in the order the traversal method names; in
     * in-order they are strictly increasing.
     */
    method GetKeys(traversal: BinaryTraversalMethod) returns (keys: seq<int>)
      requires Valid()
      ensures |keys| == |Traversal(shape, traversal)|
      ensures forall i :: 0 <= i < |keys| ==> keys[i] == Traversal(shape, traversal)[i].key
      ensures traversal == InOrderTraversal ==> keys == InOrderKeys(shape) && StrictlyIncreasing(keys)
    {
      var nodes := GetNodes(traversal);
      keys := [];
      var i := 0;
      while i < |nodes|
        invariant 0 <= i <= |nodes| && |keys| == i
        invariant forall j :: 0 <= j < i ==> keys[j] == nodes[j].key
      {
        keys := keys + [nodes[i].key];
        i := i + 1;
      }
      if traversal == InOrderTraversal {
        InOrderKeysOfNodes(shape);
        InOrderIncreasing(shape);
      }
    }

    /** `GetValues(method)`: the values of the nodes in the order the traversal method names. */
    method GetValues(traversal: BinaryTraversalMethod) returns (values: seq<int>)
      requires Valid()
      ensures |values| == |Traversal(shape, traversal)|
      ensures forall i :: 0 <= i < |values| ==> values[i] == Traversal(shape, traversal)[i].value
    {
      var nodes := GetNodes(traversal);
      values := [];
      var i := 0;
      while i < |nodes|
        invariant 0 <= i <= |nodes| && |values| == i
        invariant forall j :: 0 <= j < i ==> values[j] == nodes[j].value
      {
        values := values + [nodes[i].value];
        i := i + 1;
      }
    }

    /** `GetEnumerator`: the nodes in in-order. */
    method GetEnumerator() returns (nodes: seq<BinarySearchTreeNode>)
      requires Valid()
      ensures nodes == InOrder(shape)
    {
      nodes := EnumerateInOrder();
    }

    /**
     * `CopyTo(array, arrayIndex)`: writes the nodes in in-order into `array` from
     * `arrayIndex` on. A null array, an index outside `0..array.Length` or too little room
     * are argument errors that leave the array as it was.
     */
    method CopyTo(items: array?<BinarySearchTreeNode?>, arrayIndex: int) returns (r: Result<()>)
      requires Valid()
      modifies items
      ensures items == null ==> r == Failure(ArgumentNull)
      ensures items != null && (arrayIndex < 0 || arrayIndex > items.Length) ==> r == Failure(ArgumentOutOfRange)
      ensures items != null && 0 <= arrayIndex <= items.Length && items.Length - arrayIndex < count ==> r == Failure(Argument)
      ensures r.Failure? && items != null ==> items[..] == old(items[..])
      ensures r.Success? ==>
                && items != null && 0 <= arrayIndex && arrayIndex + count <= items.Length
                && items[..] == old(items[..arrayIndex]) + InOrder(shape) + old(items[arrayIndex + count..])
    {
      if items == null {
        return Failure(ArgumentNull);
      }
      if arrayIndex < 0 || arrayIndex > items.Length {
        return Failure(ArgumentOutOfRange);
      }
      if items.Length - arrayIndex < count {
        return Failure(Argument);
      }
      var nodes := EnumerateInOrder();
      TraversalLengths(shape);
      var index := arrayIndex;
      var i := 0;
      while i < |nodes|
        invariant 0 <= i <= |nodes| && index == arrayIndex + i
        invariant forall j :: 0 <= j < items.Length ==>
                    items[j] == if arrayIndex <= j < index then nodes[j - arrayIndex] else old(items[j])
      {
        items[index] := nodes[i];
        index := index + 1;
        i := i + 1;
      }
      ghost var copied := old(items[..arrayIndex]) + nodes + old(items[arrayIndex + |nodes|..]);
      assert |items[..]| == |copied|;
      forall j | 0 <= j < items.Length
        ensures items[..][j] == copied[j]
      {
        if j >= arrayIndex + |nodes| {
          assert copied[j] == old(items[arrayIndex + |nodes|..])[j - arrayIndex - |nodes|];
        }
      }
      return Success(());
    }
  }

  // ---------------------------------------------------------------------------------------
  // The traversal stacks
  // ---------------------------------------------------------------------------------------

  /** `PostOrderNode`: a stacked node, flagged when it is a right child still to be walked. */
  datatype PostOrderNode = PostOrderNode(node: BinarySearchTreeNode, isRight: bool)

  /** The nodes `GetNodes` enumerates for each traversal method. */
  function Traversal(s: Tree, traversal: BinaryTraversalMethod): seq<BinarySearchTreeNode> {
    match traversal
    case PreOrderTraversal => PreOrder(s)
    case InOrderTraversal => InOrder(s)
    case PostOrderTraversal => PostOrder(s)
  }

  /** The nodes of all the stacked subtrees. */
  function AllNodes(ps: seq<Tree>): set<BinarySearchTreeNode> {
    if ps == [] then {} else Nodes(ps[0]) + AllNodes(ps[1..])
  }

  /**
   * The stack holds, over a null sentinel, the top nodes of the branches `ps`, and each of
   * them is linked to its branch.
   */
  ghost predicate Spine(stack: seq<BinarySearchTreeNode?>, ps: seq<Tree>)
    reads AllNodes(ps)`left, AllNodes(ps)`right
  {
    if ps == [] then stack == [null]
    else
      && stack != [] && ps[0].Branch? && stack[0] == ps[0].node
      && Linked(ps[0].node, ps[0]) && Spine(stack[1..], ps[1..])
  }

  /** A linked subtree's top node is the pointer that links it. */
  lemma LinkedTop(x: BinarySearchTreeNode?, s: Tree)
    requires Linked(x, s)
    ensures x == NodeOf(s)
  {
  }

  /** Pushing a linked branch. */
  lemma SpinePush(t: Tree, stack: seq<BinarySearchTreeNode?>, ps: seq<Tree>)
    requires t.Branch? && Linked(t.node, t) && Spine(stack, ps)
    ensures Spine([t.node] + stack, [t] + ps)
  {
    assert ([t.node] + stack)[1..] == stack;
    assert ([t] + ps)[1..] == ps;
  }

  /** Popping: the sentinel when no branch is stacked, otherwise the top branch's node. */
  lemma SpinePop(stack: seq<BinarySearchTreeNode?>, ps: seq<Tree>)
    requires Spine(stack, ps)
    ensures stack != []
    ensures ps == [] ==> stack[0] == null && stack[1..] == []
    ensures ps != [] ==> && ps[0].Branch? && stack[0] == ps[0].node && Linked(stack[0], ps[0])
                         && Spine(stack[1..], ps[1..])
  {
  }

  /** The nodes of all the stacked post-order entries. */
  function EntryNodes(ps: seq<(Tree, bool)>): set<BinarySearchTreeNode> {
    if ps == [] then {} else Nodes(ps[0].0) + EntryNodes(ps[1..])
  }

  /** The post-order stack holds, over a `None` sentinel, an entry per branch of `ps`. */
  ghost predicate EntrySpine(stack: seq<Option<PostOrderNode>>, ps: seq<(Tree, bool)>)
    reads EntryNodes(ps)`left, EntryNodes(ps)`right
  {
    if ps == [] then stack == [None]
    else
      && stack != [] && ps[0].0.Branch? && stack[0] == Some(PostOrderNode(ps[0].0.node, ps[0].1))
      && Linked(ps[0].0.node, ps[0].0) && EntrySpine(stack[1..], ps[1..])
  }

  /** Pushing a linked branch onto the post-order stack. */
  lemma EntrySpinePush(t: Tree, isRight: bool, stack: seq<Option<PostOrderNode>>, ps: seq<(Tree, bool)>)
    requires t.Branch? && Linked(t.node, t) && EntrySpine(stack, ps)
    ensures EntrySpine([Some(PostOrderNode(t.node, isRight))] + stack, [(t, isRight)] + ps)
  {
    assert ([Some(PostOrderNode(t.node, isRight))] + stack)[1..] == stack;
    assert ([(t, isRight)] + ps)[1..] == ps;
  }

  /**
   * Pushing a branch, then its right child when it has one: the stack still mirrors the
   * pending subtrees, the same nodes remain to emit, and the measure drops.
   */
  lemma PostOrderPush(sub: Tree, stack: seq<Option<PostOrderNode>>, ps: seq<(Tree, bool)>)
    requires sub.Branch? && Linked(sub.node, sub) && EntrySpine(stack, ps)
    ensures var st, ps' := [Some(PostOrderNode(sub.node, false))] + stack, [(sub, false)] + ps;
            var st'' := if sub.right.Nil? then st else [Some(PostOrderNode(sub.right.node, true))] + st;
            var ps'' := if sub.right.Nil? then ps' else [(sub.right, true)] + ps';
            && EntrySpine(st'', ps'')
            && PostOrderPending(sub, ps) == PostOrderPending(sub.left, ps'')
            && 2 * Size(sub.left) + Weight(ps'') + 1 == 2 * Size(sub) + Weight(ps)
  {
    PostOrderDescend(sub, ps);
    EntrySpinePush(sub, false, stack, ps);
    if sub.right.Branch? {
      EntrySpinePush(sub.right, true, [Some(PostOrderNode(sub.node, false))] + stack, [(sub, false)] + ps);
    }
  }

  /** Popping the post-order stack. */
  lemma EntrySpinePop(stack: seq<Option<PostOrderNode>>, ps: seq<(Tree, bool)>)
    requires EntrySpine(stack, ps)
    ensures stack != []
    ensures ps == [] ==> stack[0] == None
    ensures ps != [] ==> && ps[0].0.Branch? && stack[0] == Some(PostOrderNode(ps[0].0.node, ps[0].1))
                         && Linked(ps[0].0.node, ps[0].0) && EntrySpine(stack[1..], ps[1..])
  {
  }

  /** Concatenation is associative. */
  lemma Regroup<T>(a: seq<T>, b: seq<T>, c: seq<T>)
    ensures (a + b) + c == a + (b + c)
  {
  }

  /** Emitting the next node keeps the emitted nodes followed by the rest equal to the walk. */
  lemma Emitted<T>(nodes: seq<T>, x: T, rest: seq<T>, total: seq<T>)
    requires nodes + ([x] + rest) == total
    ensures (nodes + [x]) + rest == total
  {
  }

  // In-order

  /** What the in-order walk still emits for stacked branches: each node, then its right subtree. */
  function InOrderRest(ps: seq<Tree>): seq<BinarySearchTreeNode> {
    if ps == [] then []
    else
      match ps[0]
      case Nil => InOrderRest(ps[1..])
      case Branch(_, n, _, r) => [n] + InOrder(r) + InOrderRest(ps[1..])
  }

  /** What the in-order walk still emits from the subtree `sub` and the stack `ps`. */
  function InOrderPending(sub: Tree, ps: seq<Tree>): seq<BinarySearchTreeNode> {
    InOrder(sub) + InOrderRest(ps)
  }

  /** Pushing a branch before walking its left subtree leaves the same nodes to emit. */
  lemma InOrderDescend(sub: Tree, ps: seq<Tree>)
    requires sub.Branch?
    ensures InOrderPending(sub, ps) == InOrderPending(sub.left, [sub] + ps)
  {
    assert ([sub] + ps)[1..] == ps;
  }

  /** With no subtree left, the top branch's node comes next, then its right subtree. */
  lemma InOrderEmit(nodes: seq<BinarySearchTreeNode>, total: seq<BinarySearchTreeNode>, ps: seq<Tree>)
    requires ps != [] && ps[0].Branch?
    requires nodes + InOrderPending(Nil, ps) == total
    ensures nodes + ([ps[0].node] + InOrderPending(ps[0].right, ps[1..])) == total
  {
    var n, rest := ps[0].node, InOrderRest(ps[1..]);
    assert InOrderPending(Nil, ps) == ([n] + InOrder(ps[0].right)) + rest;
    Regroup([n], InOrder(ps[0].right), rest);
  }

  // Pre-order

  /** What the pre-order walk still emits for stacked subtrees. */
  function PreOrderRest(ps: seq<Tree>): seq<BinarySearchTreeNode> {
    if ps == [] then [] else PreOrder(ps[0]) + PreOrderRest(ps[1..])
  }

  /** What the pre-order walk still emits from the subtree `sub` and the stack `ps`. */
  function PreOrderPending(sub: Tree, ps: seq<Tree>): seq<BinarySearchTreeNode> {
    PreOrder(sub) + PreOrderRest(ps)
  }

  /** Emitting a branch's node and pushing its right child leaves the rest to emit. */
  lemma PreOrderEmit(nodes: seq<BinarySearchTreeNode>, total: seq<BinarySearchTreeNode>, sub: Tree, ps: seq<Tree>)
    requires sub.Branch? && nodes + PreOrderPending(sub, ps) == total
    ensures (nodes + [sub.node]) + PreOrderPending(sub.left, if sub.right.Nil? then ps else [sub.right] + ps) == total
  {
    var rest := if sub.right.Nil? then ps else [sub.right] + ps;
    var n, l, r, more := [sub.node], PreOrder(sub.left), PreOrder(sub.right), PreOrderRest(ps);
    assert PreOrderRest(rest) == r + more by {
      if sub.right.Branch? {
        assert rest[1..] == ps;
      }
    }
    assert total == nodes + ((n + l + r) + more);
    Regroup(n + l, r, more);
    Regroup(n, l, r + more);
    Regroup(nodes, n, l + (r + more));
  }

  /** With no subtree left, the top stacked subtree is walked next. */
  lemma PreOrderNext(nodes: seq<BinarySearchTreeNode>, total: seq<BinarySearchTreeNode>, ps: seq<Tree>)
    requires ps != [] && nodes + PreOrderPending(Nil, ps) == total
    ensures nodes + PreOrderPending(ps[0], ps[1..]) == total
  {
  }

  // Post-order

  /** What the post-order walk still emits: a right subtree walked, or a finished node. */
  function PostOrderRest(ps: seq<(Tree, bool)>): seq<BinarySearchTreeNode> {
    if ps == [] then []
    else
      match ps[0].0
      case Nil => PostOrderRest(ps[1..])
      case Branch(_, n, _, _) => (if ps[0].1 then PostOrder(ps[0].0) else [n]) + PostOrderRest(ps[1..])
  }

  /** What the post-order walk still emits from the subtree `sub` and the stack `ps`. */
  function PostOrderPending(sub: Tree, ps: seq<(Tree, bool)>): seq<BinarySearchTreeNode> {
    PostOrder(sub) + PostOrderRest(ps)
  }

  /** A measure of the work left on the post-order stack. */
  function Weight(ps: seq<(Tree, bool)>): nat {
    if ps == [] then 0 else (if ps[0].1 then 2 * Size(ps[0].0) else 1) + Weight(ps[1..])
  }

  /**
   * Pushing a branch's node and its right child before walking its left subtree leaves the
   * same nodes to emit, and lowers the work measure by one.
   */
  lemma PostOrderDescend(sub: Tree, ps: seq<(Tree, bool)>)
    requires sub.Branch?
    ensures var ps' := [(sub, false)] + ps;
            var ps'' := if sub.right.Nil? then ps' else [(sub.right, true)] + ps';
            && PostOrderPending(sub, ps) == PostOrderPending(sub.left, ps'')
            && 2 * Size(sub.left) + Weight(ps'') + 1 == 2 * Size(sub) + Weight(ps)
  {
    var ps' := [(sub, false)] + ps;
    var ps'' := if sub.right.Nil? then ps' else [(sub.right, true)] + ps';
    assert ps'[1..] == ps;
    assert PostOrderRest(ps') == [sub.node] + PostOrderRest(ps);
    assert PostOrderRest(ps'') == PostOrder(sub.right) + PostOrderRest(ps') by {
      if sub.right.Branch? {
        assert ps''[1..] == ps';
      }
    }
    var l, r, rest := PostOrder(sub.left), PostOrder(sub.right), PostOrderRest(ps);
    assert PostOrderPending(sub, ps) == (l + r + [sub.node]) + rest;
    Regroup(l + r, [sub.node], rest);
    Regroup(l, r, [sub.node] + rest);
  }

  /** With no subtree left, a stacked right child is walked next, or a stacked node emitted. */
  lemma PostOrderNext(nodes: seq<BinarySearchTreeNode>, total: seq<BinarySearchTreeNode>, ps: seq<(Tree, bool)>)
    requires ps != [] && ps[0].0.Branch? && nodes + PostOrderPending(Nil, ps) == total
    ensures ps[0].1 ==> nodes + PostOrderPending(ps[0].0, ps[1..]) == total && Weight(ps) == 2 * Size(ps[0].0) + Weight(ps[1..])
    ensures !ps[0].1 ==> (nodes + [ps[0].0.node]) + PostOrderPending(Nil, ps[1..]) == total && Weight(ps) == 1 + Weight(ps[1..])
  {
    var t, rest := ps[0].0, PostOrderRest(ps[1..]);
    assert PostOrderRest(ps) == (if ps[0].1 then PostOrder(t) else [t.node]) + rest;
    assert PostOrderPending(Nil, ps) == PostOrderRest(ps);
    if !ps[0].1 {
      Regroup(nodes, [t.node], rest);
      assert PostOrderPending(Nil, ps[1..]) == rest;
    }
  }

  // ---------------------------------------------------------------------------------------
  // Facts linking the pointers to the shape
  // ---------------------------------------------------------------------------------------

  /** In-order, the keys of the nodes are the in-order keys. */
  lemma {:induction false} InOrderKeysOfNodes(s: Tree)
    requires Keyed(s)
    ensures |InOrder(s)| == |InOrderKeys(s)|
    ensures forall i :: 0 <= i < |InOrder(s)| ==> InOrder(s)[i].key == InOrderKeys(s)[i]
  {
    match s
    case Nil =>
    case Branch(l, n, k, r) =>
      InOrderKeysOfNodes(l);
      InOrderKeysOfNodes(r);
      forall i | 0 <= i < |InOrder(s)|
        ensures InOrder(s)[i].key == InOrderKeys(s)[i]
      {
        if i < |InOrder(l)| {
          assert InOrder(s)[i] == InOrder(l)[i] && InOrderKeys(s)[i] == InOrderKeys(l)[i];
        } else if i > |InOrder(l)| {
          var j := i - |InOrder(l)| - 1;
          assert InOrder(s)[i] == InOrder(r)[j] && InOrderKeys(s)[i] == InOrderKeys(r)[j];
        }
      }
  }

  /** Each node of a keyed shape holds one of its keys. */
  lemma {:induction false} NodeKeyIn(s: Tree, n: BinarySearchTreeNode)
    requires Keyed(s) && n in Nodes(s)
    ensures n.key in Keys(s)
  {
    match s
    case Branch(l, m, _, r) =>
      if n in Nodes(l) {
        NodeKeyIn(l, n);
      } else if n in Nodes(r) {
        NodeKeyIn(r, n);
      }
  }

  /** In a keyed, ordered shape the search for a node's key finds that very node. */
  lemma {:induction false} FoundByKey(s: Tree, n: BinarySearchTreeNode)
    requires Keyed(s) && Ordered(s) && n in Nodes(s)
    ensures Find(s, n.key).Branch? && Find(s, n.key).node == n
  {
    match s
    case Branch(l, m, k, r) =>
      if n in Nodes(l) {
        NodeKeyIn(l, n);
        FoundByKey(l, n);
      } else if n in Nodes(r) {
        NodeKeyIn(r, n);
        FoundByKey(r, n);
      }
  }

  /** The subtree found for a key is keyed and linked from its top node, and lies inside `s`. */
  lemma {:induction false} LinkedFind(x: BinarySearchTreeNode?, s: Tree, key: int)
    requires Linked(x, s) && Keyed(s)
    ensures Linked(NodeOf(Find(s, key)), Find(s, key)) && Keyed(Find(s, key))
    ensures Nodes(Find(s, key)) <= Nodes(s) && Keys(Find(s, key)) <= Keys(s)
  {
    match s
    case Nil =>
    case Branch(l, n, k, r) =>
      if key > k {
        LinkedFind(n.right, r, key);
      } else if key < k {
        LinkedFind(n.left, l, key);
      }
  }

  /** A node of an owned tree heads the subtree found for its key. */
  lemma OwnSubtree(x: BinarySearchTreeNode?, s: Tree, n: BinarySearchTreeNode)
    requires Linked(x, s) && Keyed(s) && Ordered(s) && n in Nodes(s)
    ensures Find(s, n.key).Branch? && Find(s, n.key).node == n
    ensures Linked(n, Find(s, n.key)) && Keyed(Find(s, n.key)) && Ordered(Find(s, n.key))
  {
    FoundByKey(s, n);
    LinkedFind(x, s, n.key);
    FindIsMember(s, n.key);
  }

  /** The extreme branches of a keyed subtree hold nodes whose keys are the branches' keys. */
  lemma {:induction false} KeyedExtremes(t: Tree)
    requires t.Branch? && Keyed(t)
    ensures Leftmost(t).node.key == Leftmost(t).key && Rightmost(t).node.key == Rightmost(t).key
  {
    if t.left.Branch? {
      KeyedExtremes(t.left);
    }
    if t.right.Branch? {
      KeyedExtremes(t.right);
    }
  }

  /** Inside an ordered tree, searching from the root or from the subtree found for `key` agree. */
  lemma {:induction false} FindInside(s: Tree, key: int, other: int)
    requires Ordered(s) && Find(s, key).Branch? && other in Keys(Find(s, key))
    ensures Find(s, other) == Find(Find(s, key), other)
  {
    match s
    case Branch(l, n, k, r) =>
      if key > k {
        SubtreeKeys(r, key);
        FindInside(r, key, other);
      } else if key < k {
        SubtreeKeys(l, key);
        FindInside(l, key, other);
      }
  }

  // ---------------------------------------------------------------------------------------
  // Re-pointing children
  // ---------------------------------------------------------------------------------------

  /** Every node of a keyed shape holds one of its keys. */
  lemma KeyedNodes(s: Tree)
    requires Keyed(s)
    ensures forall n :: n in Nodes(s) ==> n.key in Keys(s)
  {
    forall n | n in Nodes(s)
      ensures n.key in Keys(s)
    {
      NodeKeyIn(s, n);
    }
  }

  /** The parent the search reports is a branch of the shape, so it holds its key. */
  lemma {:induction false} KeyedParent(s: Tree, key: int, above: Tree)
    requires Keyed(s) && Keyed(above)
    ensures Keyed(FindParent(s, key, above))
  {
    if s.Branch? {
      KeyedParent(s.left, key, s);
      KeyedParent(s.right, key, s);
    }
  }

  /** Inserting a node that holds its key keeps every node holding its branch's key. */
  lemma {:induction false} InsertKeyed(s: Tree, n: BinarySearchTreeNode, key: int)
    requires Keyed(s) && n.key == key
    ensures Keyed(Insert(s, n, key))
  {
    match s
    case Nil =>
    case Branch(l, _, k, r) =>
      if key > k {
        InsertKeyed(r, n, key);
      } else if key < k {
        InsertKeyed(l, n, key);
      }
  }

  /** What `Hang` needs of the new shape: still a keyed search tree, one node larger. */
  lemma InsertShape(s: Tree, n: BinarySearchTreeNode, key: int)
    requires Keyed(s) && Ordered(s) && key !in Keys(s) && n.key == key
    ensures var t := Insert(s, n, key);
            && Keyed(t) && Ordered(t) && Size(t) == Size(s) + 1 && Nodes(t) == Nodes(s) + {n}
            && Find(t, key) == Branch(Nil, n, key, Nil)
  {
    InsertProperties(s, n, key);
    InsertKeyed(s, n, key);
    InsertFind(s, n, key, key);
  }

  /** Detaching the minimum keeps every node holding its branch's key. */
  lemma {:induction false} DetachMinimumKeyed(t: Tree)
    requires t.Branch? && t.left.Branch? && Keyed(t)
    ensures Keyed(DetachMinimum(t).0) && Keyed(DetachMinimum(t).1)
  {
    if t.left.left.Branch? {
      DetachMinimumKeyed(t.left);
    }
  }

  /** Removal keeps every node holding its branch's key. */
  lemma {:induction false} RemoveKeyed(s: Tree, key: int)
    requires Keyed(s)
    ensures Keyed(Remove(s, key))
  {
    match s
    case Nil =>
    case Branch(l, _, k, r) =>
      if key > k {
        RemoveKeyed(r, key);
      } else if key < k {
        RemoveKeyed(l, key);
      } else if r.Branch? && r.left.Branch? {
        DetachMinimumKeyed(r);
      }
  }

  /** Inserting an absent key adds its value to the dictionary. */
  lemma ValuesInsert(s: Tree, n: BinarySearchTreeNode, key: int)
    requires Ordered(s) && key !in Keys(s)
    ensures Values(Insert(s, n, key)) == Values(s)[key := n.value]
  {
    InsertEntries(s, n, key);
  }

  /** The dictionary survives a step in which no node of the shape changed its value. */
  twostate lemma ValuesFrame(s: Tree)
    requires forall m :: m in Nodes(s) ==> old(allocated(m)) && m.value == old(m.value)
    ensures Values(s) == old(Values(s))
  {
  }

  /** Changing the value of one node of the shape changes the dictionary at that node's key only. */
  twostate lemma ValuesUpdate(s: Tree, new n: BinarySearchTreeNode)
    requires Keyed(s) && Ordered(s) && Find(s, n.key).Branch? && Find(s, n.key).node == n
    requires forall m :: m in Nodes(s) ==> old(allocated(m)) && (m != n ==> m.value == old(m.value))
    ensures Values(s) == old(Values(s))[n.key := n.value]
  {
    EntriesFind(s, n.key);
    KeyedEntries(s);
    EntriesNodes(s);
    forall k | k in Entries(s) && k != n.key
      ensures Entries(s)[k] != n && Entries(s)[k].value == old(Entries(s)[k].value)
    {
    }
  }

  /** The dictionary holds nodes of the shape. */
  lemma {:induction false} EntriesNodes(s: Tree)
    ensures forall k :: k in Entries(s) ==> Entries(s)[k] in Nodes(s)
  {
    if s.Branch? {
      EntriesNodes(s.left);
      EntriesNodes(s.right);
    }
  }

  /** In a keyed shape the dictionary holds under each key a node with that key. */
  lemma {:induction false} KeyedEntries(s: Tree)
    requires Keyed(s)
    ensures forall k :: k in Entries(s) ==> Entries(s)[k].key == k
  {
    if s.Branch? {
      KeyedEntries(s.left);
      KeyedEntries(s.right);
    }
  }

  /** The nodes of a shape held in the heap are allocated there. */
  lemma {:induction false} NodesAllocated(s: Tree)
    ensures forall n :: n in Nodes(s) ==> allocated(n)
  {
    if s.Branch? {
      NodesAllocated(s.left);
      NodesAllocated(s.right);
    }
  }

  /** No node object sits at two places of the shape. */
  predicate Distinct(s: Tree) {
    s.Branch? ==>
      && s.node !in Nodes(s.left) && s.node !in Nodes(s.right) && Nodes(s.left) !! Nodes(s.right)
      && Distinct(s.left) && Distinct(s.right)
  }

  /** In a keyed, ordered shape the nodes are distinct, since their keys are. */
  lemma {:induction false} KeyedDistinct(s: Tree)
    requires Keyed(s) && Ordered(s)
    ensures Distinct(s)
  {
    if s.Branch? {
      KeyedDistinct(s.left);
      KeyedDistinct(s.right);
      KeyedNodes(s.left);
      KeyedNodes(s.right);
    }
  }

  /** No node of `S` changed its children between the two states. */
  twostate predicate Kept(new S: set<BinarySearchTreeNode>)
    reads S
  {
    forall m :: m in S && old(allocated(m)) ==> m.left == old(m.left) && m.right == old(m.right)
  }

  /** What holds for a set holds for its subsets. */
  twostate lemma KeptSubset(new S: set<BinarySearchTreeNode>, new T: set<BinarySearchTreeNode>)
    requires Kept(S) && T <= S
    ensures Kept(T)
  {
  }

  /** Links survive a step in which no node of the shape changed its children. */
  twostate lemma LinkedFrame(s: Tree)
    requires old(Linked(NodeOf(s), s)) && Kept(Nodes(s))
    ensures Linked(NodeOf(s), s)
  {
    if s.Branch? {
      KeptSubset(Nodes(s), Nodes(s.left));
      KeptSubset(Nodes(s), Nodes(s.right));
      LinkedFrame(s.left);
      LinkedFrame(s.right);
    }
  }

  /**
   * The parent the search reports is a node of the shape outside the found subtree, and
   * the found subtree (or the empty place) is its child on `key`'s side.
   */
  lemma {:induction false} ParentPlace(s: Tree, key: int)
    requires Distinct(s) && FindParent(s, key, Nil).Branch?
    ensures var p := FindParent(s, key, Nil);
            && p.node in Nodes(s) && p.key != key && p.node !in Nodes(Find(s, key))
            && Find(s, key) == (if key < p.key then p.left else p.right)
    ensures Nodes(Find(s, key)) <= Nodes(s)
  {
    var Branch(l, n, k, r) := s;
    SubtreeKeys(s, key);
    if key > k && r.Branch? && r.key != key {
      assert FindParent(s, key, Nil) == FindParent(r, key, Nil);
      ParentPlace(r, key);
    } else if key < k && l.Branch? && l.key != key {
      assert FindParent(s, key, Nil) == FindParent(l, key, Nil);
      ParentPlace(l, key);
    }
  }

  /**
   * Re-pointing the reported parent's child on `key`'s side at a linked `t`, with no other
   * node outside the found subtree changed, links the top node to `ReplaceAt(s, key, t)`.
   */
  twostate lemma Relink(s: Tree, new key: int, new t: Tree)
    requires old(Linked(NodeOf(s), s)) && Distinct(s)
    requires FindParent(s, key, Nil).Branch? && Linked(NodeOf(t), t)
    requires var p := FindParent(s, key, Nil);
             && old(allocated(p.node))
             && (key < p.key ==> p.node.left == NodeOf(t) && p.node.right == old(p.node.right))
             && (key > p.key ==> p.node.right == NodeOf(t) && p.node.left == old(p.node.left))
    requires Kept(Nodes(s) - Nodes(Find(s, key)) - {FindParent(s, key, Nil).node})
    ensures Linked(NodeOf(s), ReplaceAt(s, key, t))
  {
    var Branch(l, n, k, r) := s;
    var p := FindParent(s, key, Nil);
    ParentPlace(s, key);
    var rest := Nodes(s) - Nodes(Find(s, key)) - {p.node};
    if key > k {
      SubtreeKeys(r, key);
      var r' := ReplaceAt(r, key, t);
      if r.Branch? && r.key != key {
        assert p == FindParent(r, key, Nil);
        ParentPlace(r, key);
        KeptSubset(rest, Nodes(r) - Nodes(Find(r, key)) - {p.node});
        Relink(r, key, t);
        assert n in rest;
      } else {
        assert p.node == n && r' == t;
      }
      KeptSubset(rest, Nodes(l));
      LinkedFrame(l);
      LinkedBranch(l, n, k, r');
    } else {
      SubtreeKeys(l, key);
      var l' := ReplaceAt(l, key, t);
      if l.Branch? && l.key != key {
        assert p == FindParent(l, key, Nil);
        ParentPlace(l, key);
        KeptSubset(rest, Nodes(l) - Nodes(Find(l, key)) - {p.node});
        Relink(l, key, t);
        assert n in rest;
      } else {
        assert p.node == n && l' == t;
      }
      KeptSubset(rest, Nodes(r));
      LinkedFrame(r);
      LinkedBranch(l', n, k, r);
    }
  }

  /** A node whose children are the tops of two linked shapes links the shape they make. */
  lemma LinkedBranch(l: Tree, n: BinarySearchTreeNode, k: int, r: Tree)
    requires Linked(NodeOf(l), l) && Linked(NodeOf(r), r)
    requires n.left == NodeOf(l) && n.right == NodeOf(r)
    ensures Linked(n, Branch(l, n, k, r))
  {
  }

  /**
   * The loop and three assignments of `ReplaceNodeWithMinimumNode` inside the right subtree
   * `t`: once `minimumParent.Left` points at the minimum's right child, with no other node
   * of `t` but the minimum changed, `t`'s top node links what `DetachMinimum` leaves.
   */
  twostate lemma DetachLinked(t: Tree)
    requires t.Branch? && t.left.Branch? && Distinct(t) && old(Linked(t.node, t))
    requires var mp := MinimumParent(t).node;
             mp.left == old(MinimumParent(t).left.node.right) && mp.right == old(mp.right)
    requires Kept(Nodes(t) - {MinimumParent(t).node, MinimumParent(t).left.node})
    ensures Linked(t.node, DetachMinimum(t).1)
  {
    var Branch(tl, n, k, tr) := t;
    var rest := Nodes(t) - {MinimumParent(t).node, MinimumParent(t).left.node};
    if tl.left.Nil? {
      assert MinimumParent(t) == t && DetachMinimum(t).1 == Branch(tl.right, n, k, tr);
      assert Nodes(tl.right) <= rest && Nodes(tr) <= rest;
      assert old(Linked(tl.node, tl));
      assert old(Linked(tl.node.right, tl.right));
      assert old(tl.node.right) == NodeOf(tl.right);
      KeptSubset(rest, Nodes(tl.right));
      LinkedFrame(tl.right);
      KeptSubset(rest, Nodes(tr));
      LinkedFrame(tr);
      LinkedBranch(tl.right, n, k, tr);
    } else {
      assert MinimumParent(t) == MinimumParent(tl);
      assert n in rest && Nodes(tr) <= rest;
      KeptSubset(rest, Nodes(tl) - {MinimumParent(tl).node, MinimumParent(tl).left.node});
      DetachLinked(tl);
      KeptSubset(rest, Nodes(tr));
      LinkedFrame(tr);
      var l' := DetachMinimum(tl).1;
      assert DetachMinimum(t).1 == Branch(l', n, k, tr) && NodeOf(l') == tl.node;
      LinkedBranch(l', n, k, tr);
    }
  }

  /**
   * `Add`'s link step: hanging a childless node `x` where the search for an absent `key`
   * fell off (under the reported parent, or as the root of an empty tree) links the new
   * top node to `Insert(s, x, key)`.
   */
  twostate lemma InsertLinked(s: Tree, new key: int, new x: BinarySearchTreeNode)
    requires old(Linked(NodeOf(s), s)) && Distinct(s) && Find(s, key).Nil?
    requires x.left == null && x.right == null
    requires FindParent(s, key, Nil).Nil? ==> s.Nil?
    requires FindParent(s, key, Nil).Branch? ==>
               var p := FindParent(s, key, Nil);
               && old(allocated(p.node))
               && (key < p.key ==> p.node.left == x && p.node.right == old(p.node.right))
               && (key > p.key ==> p.node.right == x && p.node.left == old(p.node.left))
    requires Kept(Nodes(s) - {NodeOf(FindParent(s, key, Nil))})
    ensures Linked(if s.Nil? then x else NodeOf(s), Insert(s, x, key))
  {
    InsertReplaces(s, x, key);
    if s.Branch? {
      KeptSubset(Nodes(s) - {NodeOf(FindParent(s, key, Nil))}, Nodes(s) - Nodes(Find(s, key)) - {FindParent(s, key, Nil).node});
      Relink(s, key, Branch(Nil, x, key, Nil));
    }
  }

  // ---------------------------------------------------------------------------------------
  // Removal
  // ---------------------------------------------------------------------------------------

  /** An empty search never reports a parent once it has left a branch. */
  lemma {:induction false} FindParentBelow(s: Tree, key: int, above: Tree)
    requires above.Branch?
    ensures FindParent(s, key, above).Branch?
  {
    if s.Branch? {
      FindParentBelow(s.left, key, s);
      FindParentBelow(s.right, key, s);
    }
  }

  /**
   * Where the node to remove sits: the subtree found for `key` is linked, keyed, ordered and
   * distinct inside `s`; with no parent reported it is the whole shape, and otherwise it is
   * the parent's child on `key`'s side, and neither the parent nor the root lies inside it.
   */
  lemma RemovePlace(x: BinarySearchTreeNode?, s: Tree, key: int)
    requires Linked(x, s) && Keyed(s) && Ordered(s) && Find(s, key).Branch?
    ensures var f := Find(s, key);
            && Distinct(s) && Linked(f.node, f) && Keyed(f) && Ordered(f) && Distinct(f)
            && Nodes(f) <= Nodes(s) && f.node.key == key
    ensures FindParent(s, key, Nil).Nil? ==> Find(s, key) == s
    ensures FindParent(s, key, Nil).Branch? ==>
              var p := FindParent(s, key, Nil);
              && p.node in Nodes(s) && p.node !in Nodes(Find(s, key)) && s.node !in Nodes(Find(s, key))
              && p.node.key == p.key && p.key != key
              && Find(s, key) == (if key < p.key then p.left else p.right)
  {
    KeyedDistinct(s);
    LinkedFind(x, s, key);
    FindIsMember(s, key);
    KeyedDistinct(Find(s, key));
    KeyedParent(s, key, Nil);
    if FindParent(s, key, Nil).Nil? {
      var Branch(l, n, k, r) := s;
      if key > k {
        FindParentBelow(r, key, s);
      } else if key < k {
        FindParentBelow(l, key, s);
      }
    } else {
      ParentPlace(s, key);
    }
  }

  /**
   * The pointer writes of `ReplaceNodeWithMinimumNode` inside the removed node's subtree
   * `f`, once the loop has stopped at the minimum's parent `mp`, link the minimum to what
   * `RemoveRoot` leaves.
   */
  twostate lemma MinimumLinked(f: Tree, new mp: Tree)
    requires f.Branch? && f.right.Branch? && f.right.left.Branch? && Distinct(f)
    requires old(Linked(f.node, f)) && mp == MinimumParent(f.right) && old(allocated(mp.node))
    requires mp.node.left == old(mp.left.node.right) && mp.node.right == old(mp.node.right)
    requires mp.left.node.left == old(f.node.left) && mp.left.node.right == old(f.node.right)
    requires Kept(Nodes(f) - {mp.node, mp.left.node})
    ensures Linked(mp.left.node, RemoveRoot(f))
  {
    var Branch(fl, _, _, fr) := f;
    var rest := Nodes(f) - {mp.node, mp.left.node};
    assert old(Linked(fr.node, fr));
    KeptSubset(rest, Nodes(fr) - {mp.node, mp.left.node});
    DetachLinked(fr);
    assert Nodes(fl) <= rest;
    KeptSubset(rest, Nodes(fl));
    LinkedFrame(fl);
    var (m, r') := DetachMinimum(fr);
    assert NodeOf(r') == fr.node;
    LinkedBranch(fl, m.node, m.key, r');
  }

  /** After `RemoveNode`, the shape is `Remove(s, key)`: keyed, ordered, one node smaller, without the node. */
  lemma RemoveShape(s: Tree, node: BinarySearchTreeNode)
    requires Keyed(s) && Ordered(s) && node.key in Keys(s)
    ensures var t := Remove(s, node.key);
            && Keyed(t) && Ordered(t) && Size(t) + 1 == Size(s) && Nodes(t) <= Nodes(s) && node !in Nodes(t)
  {
    RemoveKeyed(s, node.key);
    RemoveProperties(s, node.key);
    RemoveNodes(s, node.key);
    KeyedNodes(Remove(s, node.key));
  }

  /** Removing a key, with no stored value changed, takes its value out of the dictionary. */
  twostate lemma ValuesRemoved(s: Tree, new key: int)
    requires Ordered(s) && forall m :: m in Nodes(s) ==> old(allocated(m)) && m.value == old(m.value)
    ensures Values(Remove(s, key)) == old(Values(s)) - {key}
  {
    RemoveEntries(s, key);
    RemoveNodes(s, key);
    ValuesFrame(s);
  }

  /** The post-order enumeration visits exactly the nodes of the shape. */
  lemma {:induction false} PostOrderNodes(s: Tree)
    ensures forall n :: n in Nodes(s) ==> n in PostOrder(s)
    ensures forall n :: n in PostOrder(s) ==> n in Nodes(s)
  {
    if s.Branch? {
      PostOrderNodes(s.left);
      PostOrderNodes(s.right);
    }
  }
}
