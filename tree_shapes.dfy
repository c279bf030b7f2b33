/**
 * The shape of an unbalanced binary search tree as a value: each branch holds the node
 * object `N` that sits there and that node's key. The functions here say what the loops of
 * the C# `BinarySearchTree` and `BinarySearchTreeNode` compute, with integer keys compared
 * by `<` in place of the comparer; the lemmas say what the code promises about them.
 */
module TreeShapes {

  datatype Shape<N> = Nil | Branch(left: Shape<N>, node: N, key: int, right: Shape<N>)

  /** The keys stored in a shape. */
  function Keys<N>(s: Shape<N>): set<int> {
    match s
    case Nil => {}
    case Branch(l, _, k, r) => Keys(l) + {k} + Keys(r)
  }

  /** The node objects of a shape. */
  function Nodes<N>(s: Shape<N>): set<N> {
    match s
    case Nil => {}
    case Branch(l, n, _, r) => Nodes(l) + {n} + Nodes(r)
  }

  /** The number of branches: what `Count` tracks. */
  function Size<N>(s: Shape<N>): nat {
    match s
    case Nil => 0
    case Branch(l, _, _, r) => Size(l) + 1 + Size(r)
  }

  /**
   * The search-tree ordering: every key in a left subtree is smaller and every key in a
   * right subtree larger than the key of the branch above it.
   */
  predicate Ordered<N>(s: Shape<N>) {
    match s
    case Nil => true
    case Branch(l, _, k, r) =>
      && Ordered(l) && Ordered(r)
      && (forall x :: x in Keys(l) ==> x < k)
      && (forall x :: x in Keys(r) ==> k < x)
  }

  // ---------------------------------------------------------------------------------------
  // Traversals
  // ---------------------------------------------------------------------------------------

  /** Left subtree, node, right subtree. */
  function InOrder<N>(s: Shape<N>): seq<N> {
    match s
    case Nil => []
    case Branch(l, n, _, r) => InOrder(l) + [n] + InOrder(r)
  }

  /** The keys in in-order. */
  function InOrderKeys<N>(s: Shape<N>): seq<int> {
    match s
    case Nil => []
    case Branch(l, _, k, r) => InOrderKeys(l) + [k] + InOrderKeys(r)
  }

  /** Node, left subtree, right subtree. */
  function PreOrder<N>(s: Shape<N>): seq<N> {
    match s
    case Nil => []
    case Branch(l, n, _, r) => [n] + PreOrder(l) + PreOrder(r)
  }

  /** Left subtree, right subtree, node. */
  function PostOrder<N>(s: Shape<N>): seq<N> {
    match s
    case Nil => []
    case Branch(l, n, _, r) => PostOrder(l) + PostOrder(r) + [n]
  }

  predicate StrictlyIncreasing(xs: seq<int>) {
    forall i, j :: 0 <= i < j < |xs| ==> xs[i] < xs[j]
  }

  /** The in-order keys are the keys, each once. */
  lemma {:induction false} InOrderKeysAreKeys<N>(s: Shape<N>)
    ensures |InOrderKeys(s)| == Size(s)
    ensures forall x :: x in Keys(s) <==> x in InOrderKeys(s)
  {
    match s
    case Nil =>
    case Branch(l, _, _, r) =>
      InOrderKeysAreKeys(l);
      InOrderKeysAreKeys(r);
  }

  /** Every traversal lists as many nodes as the shape has. */
  lemma {:induction false} TraversalLengths<N>(s: Shape<N>)
    ensures |InOrder(s)| == Size(s) && |PreOrder(s)| == Size(s) && |PostOrder(s)| == Size(s)
  {
    match s
    case Nil =>
    case Branch(l, _, _, r) =>
      TraversalLengths(l);
      TraversalLengths(r);
  }

  /** In-order enumeration of an ordered tree yields strictly increasing keys. */
  lemma {:induction false} InOrderIncreasing<N>(s: Shape<N>)
    requires Ordered(s)
    ensures StrictlyIncreasing(InOrderKeys(s))
  {
    match s
    case Nil =>
    case Branch(l, _, k, r) =>
      InOrderIncreasing(l);
      InOrderIncreasing(r);
      InOrderKeysAreKeys(l);
      InOrderKeysAreKeys(r);
      var xs := InOrderKeys(s);
      var a, b := InOrderKeys(l), InOrderKeys(r);
      assert xs == a + [k] + b;
      forall i, j | 0 <= i < j < |xs|
        ensures xs[i] < xs[j]
      {
        if j < |a| {
          assert xs[i] == a[i] && xs[j] == a[j];
        } else if i > |a| {
          assert xs[i] == b[i - |a| - 1] && xs[j] == b[j - |a| - 1];
        } else {
          assert i < |a| ==> xs[i] == a[i] && a[i] in Keys(l);
          assert j > |a| ==> xs[j] == b[j - |a| - 1] && b[j - |a| - 1] in Keys(r);
        }
      }
  }

  // ---------------------------------------------------------------------------------------
  // Search
  // ---------------------------------------------------------------------------------------

  /**
   * `FindNode(key)`: from the root, go right on a larger key and left on a smaller one; the
   * subtree whose key equals `key`, or Nil when the walk falls off the tree.
   */
  function Find<N>(s: Shape<N>, key: int): (r: Shape<N>)
    ensures r.Branch? ==> r.key == key
  {
    match s
    case Nil => Nil
    case Branch(l, _, k, r) =>
      if key > k then Find(r, key)
      else if key < k then Find(l, key)
      else s
  }

  /** In an ordered tree the search finds a key exactly when it is stored. */
  lemma {:induction false} FindIsMember<N>(s: Shape<N>, key: int)
    requires Ordered(s)
    ensures Find(s, key).Branch? <==> key in Keys(s)
    ensures Find(s, key).Branch? ==> Find(s, key).node in Nodes(s) && Ordered(Find(s, key))
  {
    match s
    case Nil =>
    case Branch(l, _, k, r) =>
      FindIsMember(l, key);
      FindIsMember(r, key);
  }

  /**
   * The second `FindNode` overload also reports the parent: the last branch the search left
   * before it found `key` (Nil when `key` is at the root or absent from an empty tree).
   */
  function FindParent<N>(s: Shape<N>, key: int, parent: Shape<N>): Shape<N> {
    match s
    case Nil => parent
    case Branch(l, _, k, r) =>
      if key > k then FindParent(r, key, s)
      else if key < k then FindParent(l, key, s)
      else parent
  }

  // ---------------------------------------------------------------------------------------
  // Insertion
  // ---------------------------------------------------------------------------------------

  /**
   * `Add(key, value)` once its search has fallen off the tree: the new node `n` hangs where
   * the search for `key` ends. An equal key leaves the shape as it is (the C# code throws).
   */
  function Insert<N>(s: Shape<N>, n: N, key: int): Shape<N> {
    match s
    case Nil => Branch(Nil, n, key, Nil)
    case Branch(l, m, k, r) =>
      if key > k then Branch(l, m, k, Insert(r, n, key))
      else if key < k then Branch(Insert(l, n, key), m, k, r)
      else s
  }

  /** Inserting a new key adds exactly that key and node, keeps the ordering and grows the size by one. */
  lemma {:induction false} InsertProperties<N>(s: Shape<N>, n: N, key: int)
    requires Ordered(s) && key !in Keys(s)
    ensures Keys(Insert(s, n, key)) == Keys(s) + {key}
    ensures Nodes(Insert(s, n, key)) == Nodes(s) + {n}
    ensures Size(Insert(s, n, key)) == Size(s) + 1
    ensures Ordered(Insert(s, n, key))
  {
    match s
    case Nil =>
    case Branch(l, m, k, r) =>
      if key > k {
        InsertProperties(r, n, key);
      } else {
        InsertProperties(l, n, key);
      }
  }

  /** After inserting, the search for any other key finds what it found before. */
  lemma {:induction false} InsertFind<N>(s: Shape<N>, n: N, key: int, other: int)
    requires Ordered(s) && key !in Keys(s)
    ensures Find(Insert(s, n, key), key) == Branch(Nil, n, key, Nil)
    ensures other != key ==> Find(Insert(s, n, key), other).Branch? == Find(s, other).Branch?
    ensures other != key && Find(s, other).Branch? ==> Find(Insert(s, n, key), other).node == Find(s, other).node
  {
    match s
    case Nil =>
    case Branch(l, m, k, r) =>
      if key > k {
        InsertFind(r, n, key, other);
      } else {
        InsertFind(l, n, key, other);
      }
  }

  /** In-order, the new node lands at its key's rank: after the smaller keys, before the larger. */
  lemma {:induction false} InsertInOrder<N>(s: Shape<N>, n: N, key: int)
    requires Ordered(s) && key !in Keys(s)
    ensures Rank(s, key) <= |InOrder(s)|
    ensures InOrder(Insert(s, n, key)) == InOrder(s)[..Rank(s, key)] + [n] + InOrder(s)[Rank(s, key)..]
  {
    match s
    case Nil =>
    case Branch(l, m, k, r) =>
      if key > k {
        InsertInOrder(r, n, key);
        InsertSpliceRight(InOrder(l), m, InOrder(r), Rank(r, key), n);
      } else {
        InsertInOrder(l, n, key);
        InsertSpliceLeft(InOrder(l), m, InOrder(r), Rank(l, key), n);
      }
  }

  /** Putting `x` at position `|a| + 1 + j` of `a + [m] + b` puts it at position `j` of `b`. */
  lemma InsertSpliceRight<T>(a: seq<T>, m: T, b: seq<T>, j: nat, x: T)
    requires j <= |b|
    ensures (a + [m] + b)[..|a| + 1 + j] + [x] + (a + [m] + b)[|a| + 1 + j..] == a + [m] + (b[..j] + [x] + b[j..])
  {
    var xs := a + [m] + b;
    assert xs[..|a| + 1 + j] == a + [m] + b[..j];
    assert xs[|a| + 1 + j..] == b[j..];
  }

  /** Putting `x` at position `i` of `a + [m] + b` puts it at position `i` of `a`. */
  lemma InsertSpliceLeft<T>(a: seq<T>, m: T, b: seq<T>, i: nat, x: T)
    requires i <= |a|
    ensures (a + [m] + b)[..i] + [x] + (a + [m] + b)[i..] == (a[..i] + [x] + a[i..]) + [m] + b
  {
    var xs := a + [m] + b;
    assert xs[..i] == a[..i];
    assert xs[i..] == a[i..] + [m] + b;
  }

  // ---------------------------------------------------------------------------------------
  // Removal
  // ---------------------------------------------------------------------------------------

  /**
   * The leftmost branch below the left child of `t`, and `t` with that branch taken out and
   * its right subtree moved into its place: the loop of `ReplaceNodeWithMinimumNode` and the
   * assignment `minimumParent.Left = minimum.Right`.
   */
  function DetachMinimum<N>(t: Shape<N>): (r: (Shape<N>, Shape<N>))
    requires t.Branch? && t.left.Branch?
    ensures r.0.Branch?
  {
    if t.left.left.Nil? then (t.left, Branch(t.left.right, t.node, t.key, t.right))
    else
      var (m, l') := DetachMinimum(t.left);
      (m, Branch(l', t.node, t.key, t.right))
  }

  /**
   * `RemoveNode` at the root of `s`: with no right child, the left child takes its place
   * (`ReplaceNodeWithLeftNode`); with a right child that has no left child, the right child
   * takes its place and adopts the left subtree (`ReplaceNodeWithRightNode`); otherwise the
   * minimum of the right subtree takes its place (`ReplaceNodeWithMinimumNode`).
   */
  function RemoveRoot<N>(s: Shape<N>): Shape<N>
    requires s.Branch?
  {
    var Branch(l, _, _, r) := s;
    if r.Nil? then l
    else if r.left.Nil? then Branch(l, r.node, r.key, r.right)
    else
      var (m, r') := DetachMinimum(r);
      Branch(l, m.node, m.key, r')
  }

  /** `Remove(key)`: the branch holding `key` is replaced as `RemoveRoot` says; nothing else changes. */
  function Remove<N>(s: Shape<N>, key: int): Shape<N> {
    match s
    case Nil => Nil
    case Branch(l, n, k, r) =>
      if key > k then Branch(l, n, k, Remove(r, key))
      else if key < k then Branch(Remove(l, key), n, k, r)
      else RemoveRoot(s)
  }

  /** Detaching the minimum moves one branch, without a left child, out of the subtree. */
  lemma {:induction false} DetachMinimumParts<N>(t: Shape<N>)
    requires t.Branch? && t.left.Branch?
    ensures DetachMinimum(t).0.left.Nil?
    ensures Keys(DetachMinimum(t).1) + {DetachMinimum(t).0.key} == Keys(t)
    ensures Nodes(DetachMinimum(t).1) + {DetachMinimum(t).0.node} == Nodes(t)
    ensures Size(DetachMinimum(t).1) + 1 == Size(t)
    ensures InOrder(t) == [DetachMinimum(t).0.node] + InOrder(DetachMinimum(t).1)
  {
    if !t.left.left.Nil? {
      DetachMinimumParts(t.left);
      var (m, l') := DetachMinimum(t.left);
      assert DetachMinimum(t) == (m, Branch(l', t.node, t.key, t.right));
    } else {
      var Branch(Nil, a, ka, ar) := t.left;
      assert Keys(t.left) == {ka} + Keys(ar);
      assert Nodes(t.left) == {a} + Nodes(ar);
      assert InOrder(t.left) == [a] + InOrder(ar);
      assert Size(t.left) == 1 + Size(ar);
    }
  }

  /** The detached branch holds the smallest key, and what remains is still ordered. */
  lemma {:induction false} DetachMinimumOrdered<N>(t: Shape<N>)
    requires t.Branch? && t.left.Branch? && Ordered(t)
    ensures forall x :: x in Keys(DetachMinimum(t).1) ==> DetachMinimum(t).0.key < x
    ensures Ordered(DetachMinimum(t).1)
  {
    DetachMinimumParts(t);
    var Branch(tl, n, k, tr) := t;
    if tl.left.Nil? {
      assert forall x :: x in Keys(tl.right) ==> x in Keys(tl);
    } else {
      DetachMinimumOrdered(tl);
      DetachMinimumParts(tl);
      var (m, l') := DetachMinimum(tl);
      assert DetachMinimum(t) == (m, Branch(l', n, k, tr));
      assert m.key in Keys(tl);
      assert forall x :: x in Keys(l') ==> x in Keys(tl);
    }
  }

  /** Detaching the minimum takes out exactly the smallest key, in-order first. */
  lemma {:induction false} DetachMinimumProperties<N>(t: Shape<N>)
    requires t.Branch? && t.left.Branch? && Ordered(t)
    ensures DetachMinimum(t).0.left.Nil?
    ensures Keys(DetachMinimum(t).1) == Keys(t) - {DetachMinimum(t).0.key}
    ensures DetachMinimum(t).0.key in Keys(t)
    ensures forall x :: x in Keys(DetachMinimum(t).1) ==> DetachMinimum(t).0.key < x
    ensures Size(DetachMinimum(t).1) + 1 == Size(t)
    ensures Ordered(DetachMinimum(t).1)
    ensures InOrder(t) == [DetachMinimum(t).0.node] + InOrder(DetachMinimum(t).1)
    ensures Nodes(DetachMinimum(t).1) + {DetachMinimum(t).0.node} == Nodes(t)
  {
    DetachMinimumParts(t);
    DetachMinimumOrdered(t);
  }

  /** Removing the root takes out exactly the root's key and node, in-order and in size. */
  lemma {:induction false} RemoveRootProperties<N>(s: Shape<N>)
    requires s.Branch? && Ordered(s)
    ensures Keys(RemoveRoot(s)) == Keys(s) - {s.key}
    ensures Size(RemoveRoot(s)) + 1 == Size(s)
    ensures Ordered(RemoveRoot(s))
    ensures InOrder(RemoveRoot(s)) == InOrder(s.left) + InOrder(s.right)
  {
    var Branch(l, _, k, r) := s;
    if r.Nil? {
    } else if r.left.Nil? {
      assert Keys(r) == {r.key} + Keys(r.right);
      assert InOrder(r) == [r.node] + InOrder(r.right);
      assert Size(r) == 1 + Size(r.right);
    } else {
      DetachMinimumProperties(r);
      var (m, r') := DetachMinimum(r);
      assert RemoveRoot(s) == Branch(l, m.node, m.key, r');
      assert forall x :: x in Keys(l) ==> x < m.key;
    }
  }

  /** In-order, removing the root leaves its left subtree followed by its right subtree. */
  lemma {:induction false} RemoveRootInOrder<N>(s: Shape<N>)
    requires s.Branch?
    ensures InOrder(RemoveRoot(s)) == InOrder(s.left) + InOrder(s.right)
  {
    var r := s.right;
    if r.Branch? && r.left.Nil? {
      assert InOrder(r) == [r.node] + InOrder(r.right);
    } else if r.Branch? {
      DetachMinimumParts(r);
    }
  }

  /** Removing a stored key takes out exactly that key, keeps the ordering and shrinks the size by one. */
  lemma {:induction false} RemoveProperties<N>(s: Shape<N>, key: int)
    requires Ordered(s) && key in Keys(s)
    ensures Keys(Remove(s, key)) == Keys(s) - {key}
    ensures Size(Remove(s, key)) + 1 == Size(s)
    ensures Ordered(Remove(s, key))
  {
    match s
    case Branch(l, n, k, r) =>
      if key > k {
        assert key in Keys(r);
        RemoveProperties(r, key);
      } else if key < k {
        assert key in Keys(l);
        RemoveProperties(l, key);
      } else {
        RemoveRootProperties(s);
      }
  }

  /** Removing an absent key changes nothing. */
  lemma {:induction false} RemoveAbsent<N>(s: Shape<N>, key: int)
    requires Find(s, key).Nil?
    ensures Remove(s, key) == s
  {
    match s
    case Nil =>
    case Branch(l, _, k, r) =>
      if key > k {
        RemoveAbsent(r, key);
      } else if key < k {
        RemoveAbsent(l, key);
      }
  }

  /** Removal only ever takes nodes out. */
  lemma {:induction false} RemoveNodes<N>(s: Shape<N>, key: int)
    ensures Nodes(Remove(s, key)) <= Nodes(s)
  {
    match s
    case Nil =>
    case Branch(l, _, k, r) =>
      if key > k {
        RemoveNodes(r, key);
      } else if key < k {
        RemoveNodes(l, key);
      } else if r.Branch? && r.left.Branch? {
        DetachMinimumParts(r);
      }
  }

  /**
   * Detaching the minimum keeps every key with its branch: the minimum's key still finds the
   * detached branch, and every other key finds, in what remains, the node it found before.
   */
  lemma {:induction false} DetachMinimumFind<N>(t: Shape<N>, other: int)
    requires t.Branch? && t.left.Branch? && Ordered(t) && other in Keys(t)
    ensures other == DetachMinimum(t).0.key ==> Find(t, other) == DetachMinimum(t).0
    ensures other != DetachMinimum(t).0.key ==>
              && Find(DetachMinimum(t).1, other).Branch? && Find(t, other).Branch?
              && Find(DetachMinimum(t).1, other).node == Find(t, other).node
  {
    FindIsMember(t, other);
    var Branch(tl, n, k, tr) := t;
    if other < k {
      assert other !in Keys(tr) && other in Keys(tl);
    }
    if tl.left.Nil? {
      assert DetachMinimum(t) == (tl, Branch(tl.right, n, k, tr));
      if other < k && other != tl.key {
        assert Keys(tl) == {tl.key} + Keys(tl.right);
        assert other in Keys(tl.right) && other > tl.key;
      }
    } else {
      DetachMinimumProperties(tl);
      var (m, l') := DetachMinimum(tl);
      assert DetachMinimum(t) == (m, Branch(l', n, k, tr));
      if other < k {
        DetachMinimumFind(tl, other);
      }
    }
  }

  /** Removing the root keeps every other key with its node. */
  lemma {:induction false} RemoveRootFind<N>(s: Shape<N>, other: int)
    requires s.Branch? && Ordered(s) && other in Keys(s) && other != s.key
    ensures Find(RemoveRoot(s), other).Branch? && Find(s, other).Branch?
    ensures Find(RemoveRoot(s), other).node == Find(s, other).node
  {
    FindIsMember(s, other);
    var Branch(l, _, k, r) := s;
    if other < k {
      assert other in Keys(l) && Find(s, other) == Find(l, other);
      FindIsMember(l, other);
    } else {
      assert other in Keys(r) && Find(s, other) == Find(r, other);
      FindIsMember(r, other);
    }
    if r.Nil? {
      assert RemoveRoot(s) == l;
    } else if r.left.Nil? {
      var t := Branch(l, r.node, r.key, r.right);
      assert RemoveRoot(s) == t && k < r.key;
      if other > r.key {
        assert Find(t, other) == Find(r.right, other) == Find(r, other);
      } else if other < k {
        assert Find(t, other) == Find(l, other);
      }
    } else {
      DetachMinimumProperties(r);
      var (m, r') := DetachMinimum(r);
      var t := Branch(l, m.node, m.key, r');
      assert RemoveRoot(s) == t && k < m.key;
      if other > k {
        DetachMinimumFind(r, other);
        if other != m.key {
          assert other in Keys(r') && m.key < other;
          assert Find(t, other) == Find(r', other);
        }
      } else {
        assert Find(t, other) == Find(l, other);
      }
    }
  }

  /**
   * After removing `key`, every other stored key is still found, in the same node: removal
   * moves branches around but never separates a key from its node.
   */
  lemma {:induction false} RemoveFind<N>(s: Shape<N>, key: int, other: int)
    requires Ordered(s) && other != key && other in Keys(s)
    ensures Find(Remove(s, key), other).Branch? && Find(s, other).Branch?
    ensures Find(Remove(s, key), other).node == Find(s, other).node
  {
    FindIsMember(s, other);
    var Branch(l, n, k, r) := s;
    if key > k {
      if other > k {
        RemoveFind(r, key, other);
      }
    } else if key < k {
      if other < k {
        RemoveFind(l, key, other);
      }
    } else {
      RemoveRootFind(s, other);
    }
  }

  /** The branch whose left child `DetachMinimum` takes out: where `minimumParent` ends up. */
  function MinimumParent<N>(t: Shape<N>): (r: Shape<N>)
    requires t.Branch? && t.left.Branch?
    ensures r.Branch? && r.left.Branch? && r.left == DetachMinimum(t).0
    ensures r.node in Nodes(t) && r.left.node in Nodes(t)
  {
    if t.left.left.Nil? then t else MinimumParent(t.left)
  }

  // ---------------------------------------------------------------------------------------
  // The dictionary a shape stores
  // ---------------------------------------------------------------------------------------

  /** Each stored key mapped to the node that holds it: the `IDictionary` view of the tree. */
  function Entries<N>(s: Shape<N>): (e: map<int, N>)
    ensures e.Keys == Keys(s)
  {
    match s
    case Nil => map[]
    case Branch(l, n, k, r) => (Entries(l) + Entries(r))[k := n]
  }

  /** In an ordered shape the dictionary holds, under each key, the node the search finds. */
  lemma {:induction false} EntriesFind<N>(s: Shape<N>, key: int)
    requires Ordered(s)
    ensures key in Entries(s) <==> Find(s, key).Branch?
    ensures key in Entries(s) ==> Entries(s)[key] == Find(s, key).node
  {
    FindIsMember(s, key);
    match s
    case Nil =>
    case Branch(l, n, k, r) =>
      if key > k {
        assert key !in Keys(l);
        EntriesFind(r, key);
      } else if key < k {
        assert key !in Keys(r);
        EntriesFind(l, key);
      }
  }

  /** Inserting an absent key adds exactly that entry to the dictionary. */
  lemma {:induction false} InsertEntries<N>(s: Shape<N>, n: N, key: int)
    requires Ordered(s) && key !in Keys(s)
    ensures Entries(Insert(s, n, key)) == Entries(s)[key := n]
  {
    match s
    case Nil =>
      UnionEmpty(map[key := n]);
    case Branch(l, m, k, r) =>
      var el, er := Entries(l), Entries(r);
      if key > k {
        InsertEntries(r, n, key);
        UnionUpdateRight(el, er, key, n);
      } else {
        InsertEntries(l, n, key);
        UnionUpdateLeft(el, er, key, n);
      }
      UpdateSwap(el + er, key, n, k, m);
  }

  /** Detaching the minimum takes exactly its entry out of the dictionary. */
  lemma {:induction false} DetachMinimumEntries<N>(t: Shape<N>)
    requires t.Branch? && t.left.Branch? && Ordered(t)
    ensures Entries(t) == Entries(DetachMinimum(t).1)[DetachMinimum(t).0.key := DetachMinimum(t).0.node]
  {
    var Branch(tl, n, k, tr) := t;
    var (m, rest) := DetachMinimum(t);
    var left, etr := Entries(if tl.left.Nil? then tl.right else DetachMinimum(tl).1), Entries(tr);
    if tl.left.Nil? {
      UnionEmpty(Entries(tl.right));
      assert m == tl && Entries(tl) == left[m.key := m.node];
    } else {
      DetachMinimumEntries(tl);
      DetachMinimumProperties(tl);
      assert DetachMinimum(t) == (DetachMinimum(tl).0, Branch(DetachMinimum(tl).1, n, k, tr));
    }
    assert m.key in Keys(tl);
    UnionUpdateLeft(left, etr, m.key, m.node);
    UpdateSwap(left + etr, m.key, m.node, k, n);
  }

  /** Removing the root takes exactly the root's entry out of the dictionary. */
  lemma {:induction false} RemoveRootEntries<N>(s: Shape<N>)
    requires s.Branch? && Ordered(s)
    ensures Entries(RemoveRoot(s)) == Entries(s) - {s.key}
  {
    var Branch(l, _, k, r) := s;
    var el, er := Entries(l), Entries(r);
    UpdateRemove(el + er, k, s.node);
    if r.Nil? {
      UnionEmpty(el);
    } else if r.left.Nil? {
      UnionEmpty(Entries(r.right));
      UnionUpdateRight(el, Entries(r.right), r.key, r.node);
    } else {
      DetachMinimumEntries(r);
      var (m, r') := DetachMinimum(r);
      assert RemoveRoot(s) == Branch(l, m.node, m.key, r');
      UnionUpdateRight(el, Entries(r'), m.key, m.node);
    }
  }

  /** `Remove(key)` takes exactly the entry of `key`, if any, out of the dictionary. */
  lemma {:induction false} RemoveEntries<N>(s: Shape<N>, key: int)
    requires Ordered(s)
    ensures Entries(Remove(s, key)) == Entries(s) - {key}
  {
    match s
    case Nil =>
      RemoveAbsentKey<N>(map[], key);
    case Branch(l, n, k, r) =>
      var el, er := Entries(l), Entries(r);
      if key > k {
        RemoveEntries(r, key);
        RemoveAbsentKey(el, key);
      } else if key < k {
        RemoveEntries(l, key);
        RemoveAbsentKey(er, key);
      } else {
        RemoveRootEntries(s);
      }
      if key != k {
        RemoveUpdate(el + er, key, k, n);
        RemoveUnion(el, er, key);
      }
  }

  lemma UnionEmpty<V>(m: map<int, V>)
    ensures map[] + m == m && m + map[] == m
  {
  }

  lemma UnionUpdateRight<V>(a: map<int, V>, b: map<int, V>, x: int, v: V)
    ensures a + b[x := v] == (a + b)[x := v]
  {
  }

  lemma UnionUpdateLeft<V>(a: map<int, V>, b: map<int, V>, x: int, v: V)
    requires x !in b
    ensures a[x := v] + b == (a + b)[x := v]
  {
  }

  lemma UpdateSwap<V>(m: map<int, V>, x: int, v: V, y: int, w: V)
    requires x != y
    ensures m[x := v][y := w] == m[y := w][x := v]
  {
  }

  lemma RemoveUnion<V>(a: map<int, V>, b: map<int, V>, x: int)
    ensures (a + b) - {x} == (a - {x}) + (b - {x})
  {
  }

  lemma RemoveUpdate<V>(m: map<int, V>, x: int, y: int, w: V)
    requires x != y
    ensures m[y := w] - {x} == (m - {x})[y := w]
  {
  }

  lemma RemoveAbsentKey<V>(m: map<int, V>, x: int)
    requires x !in m
    ensures m - {x} == m
  {
  }

  lemma UpdateRemove<V>(m: map<int, V>, x: int, v: V)
    requires x !in m
    ensures m[x := v] - {x} == m
  {
  }

  // ---------------------------------------------------------------------------------------
  // Re-pointing a child
  // ---------------------------------------------------------------------------------------

  /**
   * The shape with the subtree at which the search for `key` ends (the branch holding `key`,
   * or the empty place where it would hang) replaced by `t`: what re-pointing that place's
   * parent, or the root, at `t` spells out.
   */
  function ReplaceAt<N>(s: Shape<N>, key: int, t: Shape<N>): Shape<N> {
    match s
    case Nil => t
    case Branch(l, n, k, r) =>
      if key > k then Branch(l, n, k, ReplaceAt(r, key, t))
      else if key < k then Branch(ReplaceAt(l, key, t), n, k, r)
      else t
  }

  /** Inserting an absent key hangs a leaf at the place where its search ends. */
  lemma {:induction false} InsertReplaces<N>(s: Shape<N>, n: N, key: int)
    requires Find(s, key).Nil?
    ensures Insert(s, n, key) == ReplaceAt(s, key, Branch(Nil, n, key, Nil))
  {
    match s
    case Nil =>
    case Branch(l, _, k, r) =>
      if key > k {
        InsertReplaces(r, n, key);
      } else if key < k {
        InsertReplaces(l, n, key);
      }
  }

  /** Removing a stored key puts the root removal of its branch in that branch's place. */
  lemma {:induction false} RemoveReplaces<N>(s: Shape<N>, key: int)
    requires Find(s, key).Branch?
    ensures Remove(s, key) == ReplaceAt(s, key, RemoveRoot(Find(s, key)))
  {
    match s
    case Branch(l, _, k, r) =>
      if key > k {
        RemoveReplaces(r, key);
      } else if key < k {
        RemoveReplaces(l, key);
      }
  }

  /**
   * The parent the search reports is a branch of the tree other than the found subtree,
   * and the found subtree (or the empty place) is its child on `key`'s side.
   */
  lemma {:induction false} FindParentFacts<N>(s: Shape<N>, key: int)
    requires Ordered(s) && FindParent(s, key, Nil).Branch?
    ensures var p := FindParent(s, key, Nil);
            && p.node in Nodes(s) && p.key in Keys(s) && p.key != key
            && Find(s, key) == (if key < p.key then p.left else p.right)
            && p.key !in Keys(Find(s, key))
  {
    var Branch(l, n, k, r) := s;
    SubtreeKeys(s, key);
    if key > k {
      if r.Branch? && r.key != key {
        assert FindParent(s, key, Nil) == FindParent(r, key, Nil);
        FindParentFacts(r, key);
      }
    } else if key < k {
      if l.Branch? && l.key != key {
        assert FindParent(s, key, Nil) == FindParent(l, key, Nil);
        FindParentFacts(l, key);
      }
    }
  }

  /** The keys of a found subtree are among those of the whole. */
  lemma {:induction false} SubtreeKeys<N>(s: Shape<N>, key: int)
    ensures Keys(Find(s, key)) <= Keys(s) && Nodes(Find(s, key)) <= Nodes(s)
  {
    match s
    case Nil =>
    case Branch(l, _, k, r) =>
      if key > k {
        SubtreeKeys(r, key);
      } else if key < k {
        SubtreeKeys(l, key);
      }
  }

  /** The position of `key`'s node in the in-order sequence. */
  function Rank<N>(s: Shape<N>, key: int): nat {
    match s
    case Nil => 0
    case Branch(l, _, k, r) =>
      if key > k then |InOrder(l)| + 1 + Rank(r, key)
      else if key < k then Rank(l, key)
      else |InOrder(l)|
  }

  /** Taking element `|a| + 1 + j` out of `a + [n] + b` takes element `j` out of `b`. */
  lemma SpliceRight<T>(a: seq<T>, n: T, b: seq<T>, j: nat)
    requires j < |b|
    ensures (a + [n] + b)[|a| + 1 + j] == b[j]
    ensures (a + [n] + b)[..|a| + 1 + j] + (a + [n] + b)[|a| + 2 + j..] == a + [n] + (b[..j] + b[j + 1..])
  {
    var xs := a + [n] + b;
    assert xs[..|a| + 1 + j] == a + [n] + b[..j];
    assert xs[|a| + 2 + j..] == b[j + 1..];
  }

  /** Taking element `i` out of `a + [n] + b` takes element `i` out of `a`. */
  lemma SpliceLeft<T>(a: seq<T>, n: T, b: seq<T>, i: nat)
    requires i < |a|
    ensures (a + [n] + b)[i] == a[i]
    ensures (a + [n] + b)[..i] + (a + [n] + b)[i + 1..] == (a[..i] + a[i + 1..]) + [n] + b
  {
    var xs := a + [n] + b;
    assert xs[..i] == a[..i];
    assert xs[i + 1..] == a[i + 1..] + [n] + b;
  }

  /** Taking element `|a|` out of `a + [n] + b` leaves `a + b`. */
  lemma SpliceMiddle<T>(a: seq<T>, n: T, b: seq<T>)
    ensures (a + [n] + b)[|a|] == n
    ensures (a + [n] + b)[..|a|] + (a + [n] + b)[|a| + 1..] == a + b
  {
    var xs := a + [n] + b;
    assert xs[..|a|] == a;
    assert xs[|a| + 1..] == b;
  }

  /** Removing a stored key leaves the old in-order sequence without that key's node. */
  lemma {:induction false} RemoveInOrder<N>(s: Shape<N>, key: int)
    requires Find(s, key).Branch?
    ensures Rank(s, key) < |InOrder(s)| && InOrder(s)[Rank(s, key)] == Find(s, key).node
    ensures InOrder(Remove(s, key)) == InOrder(s)[..Rank(s, key)] + InOrder(s)[Rank(s, key) + 1..]
  {
    var Branch(l, n, k, r) := s;
    assert InOrder(s) == InOrder(l) + [n] + InOrder(r);
    if key > k {
      RemoveInOrder(r, key);
      SpliceRight(InOrder(l), n, InOrder(r), Rank(r, key));
      assert InOrder(Remove(s, key)) == InOrder(l) + [n] + InOrder(Remove(r, key));
    } else if key < k {
      RemoveInOrder(l, key);
      SpliceLeft(InOrder(l), n, InOrder(r), Rank(l, key));
      assert InOrder(Remove(s, key)) == InOrder(Remove(l, key)) + [n] + InOrder(r);
    } else {
      RemoveRootInOrder(s);
      SpliceMiddle(InOrder(l), n, InOrder(r));
    }
  }

  // ---------------------------------------------------------------------------------------
  // Minimum, maximum, predecessor and successor
  // ---------------------------------------------------------------------------------------

  /** `GetMinimum`: follow `Left` while there is one. */
  function Leftmost<N>(t: Shape<N>): (r: Shape<N>)
    requires t.Branch?
    ensures r.Branch? && r.left.Nil?
  {
    if t.left.Nil? then t else Leftmost(t.left)
  }

  /** `GetMaximum`: follow `Right` while there is one. */
  function Rightmost<N>(t: Shape<N>): (r: Shape<N>)
    requires t.Branch?
    ensures r.Branch? && r.right.Nil?
  {
    if t.right.Nil? then t else Rightmost(t.right)
  }

  /** The leftmost branch holds the smallest key of an ordered subtree. */
  lemma {:induction false} LeftmostIsMinimum<N>(t: Shape<N>)
    requires t.Branch? && Ordered(t)
    ensures Leftmost(t).key in Keys(t) && Leftmost(t).node in Nodes(t)
    ensures forall x :: x in Keys(t) ==> Leftmost(t).key <= x
  {
    if t.left.Branch? {
      LeftmostIsMinimum(t.left);
    }
  }

  /** The rightmost branch holds the largest key of an ordered subtree. */
  lemma {:induction false} RightmostIsMaximum<N>(t: Shape<N>)
    requires t.Branch? && Ordered(t)
    ensures Rightmost(t).key in Keys(t) && Rightmost(t).node in Nodes(t)
    ensures forall x :: x in Keys(t) ==> x <= Rightmost(t).key
  {
    if t.right.Branch? {
      RightmostIsMaximum(t.right);
    }
  }

  /**
   * The re-descent of `GetPredecessor` from the owner's root: every branch where the search
   * for `key` turns right becomes the candidate; the walk stops at `key` or off the tree.
   */
  function PredecessorFrom<N>(s: Shape<N>, key: int, candidate: Shape<N>): Shape<N> {
    match s
    case Nil => candidate
    case Branch(l, _, k, r) =>
      if key > k then PredecessorFrom(r, key, s)
      else if key < k then PredecessorFrom(l, key, candidate)
      else candidate
  }

  /** The mirror image for `GetSuccessor`: branches where the search turns left are candidates. */
  function SuccessorFrom<N>(s: Shape<N>, key: int, candidate: Shape<N>): Shape<N> {
    match s
    case Nil => candidate
    case Branch(l, _, k, r) =>
      if key < k then SuccessorFrom(l, key, s)
      else if key > k then SuccessorFrom(r, key, candidate)
      else candidate
  }

  /** `GetPredecessor` of the node holding `key`: the maximum of its left subtree, or the re-descent. */
  function Predecessor<N>(s: Shape<N>, key: int): Shape<N>
    requires Find(s, key).Branch?
  {
    var t := Find(s, key);
    if t.left.Branch? then Rightmost(t.left) else PredecessorFrom(s, key, Nil)
  }

  /** `GetSuccessor` of the node holding `key`: the minimum of its right subtree, or the re-descent. */
  function Successor<N>(s: Shape<N>, key: int): Shape<N>
    requires Find(s, key).Branch?
  {
    var t := Find(s, key);
    if t.right.Branch? then Leftmost(t.right) else SuccessorFrom(s, key, Nil)
  }

  /** `below` is the branch with the largest key of `s` smaller than `key`, or Nil if there is none. */
  ghost predicate IsGreatestBelow<N>(s: Shape<N>, key: int, below: Shape<N>) {
    && (below.Branch? ==> below.key in Keys(s) && below.node in Nodes(s) && below.key < key)
    && (forall x :: x in Keys(s) && x < key ==> below.Branch? && x <= below.key)
  }

  /** `above` is the branch with the smallest key of `s` larger than `key`, or Nil if there is none. */
  ghost predicate IsLeastAbove<N>(s: Shape<N>, key: int, above: Shape<N>) {
    && (above.Branch? ==> above.key in Keys(s) && above.node in Nodes(s) && key < above.key)
    && (forall x :: x in Keys(s) && key < x ==> above.Branch? && above.key <= x)
  }

  /**
   * The re-descent finds the predecessor of a key whose branch has no left child: the best
   * of the candidate so far and the keys below `s` that are smaller than `key`.
   */
  lemma {:induction false} PredecessorFromIsGreatest<N>(whole: Shape<N>, s: Shape<N>, key: int, candidate: Shape<N>)
    requires Ordered(s) && Find(s, key).Branch? && Find(s, key).left.Nil?
    requires candidate.Branch? ==> candidate.key < key && candidate.key in Keys(whole) && candidate.node in Nodes(whole)
    requires Keys(s) <= Keys(whole) && Nodes(s) <= Nodes(whole)
    requires forall x :: x in Keys(whole) && x !in Keys(s) && x < key ==> candidate.Branch? && x <= candidate.key
    requires candidate.Branch? ==> forall x :: x in Keys(s) ==> candidate.key < x
    ensures IsGreatestBelow(whole, key, PredecessorFrom(s, key, candidate))
  {
    match s
    case Branch(l, _, k, r) =>
      if key > k {
        forall x | x in Keys(whole) - Keys(r) && x < key
          ensures x <= k
        {
          if x !in Keys(s) {
            assert candidate.Branch? && x <= candidate.key;
          }
        }
        PredecessorFromIsGreatest(whole, r, key, s);
      } else if key < k {
        assert forall x :: x in Keys(r) ==> key < x;
        PredecessorFromIsGreatest(whole, l, key, candidate);
      } else {
        assert forall x :: x in Keys(s) ==> key <= x;
      }
  }

  /** The mirror image of `PredecessorFromIsGreatest`. */
  lemma {:induction false} SuccessorFromIsLeast<N>(whole: Shape<N>, s: Shape<N>, key: int, candidate: Shape<N>)
    requires Ordered(s) && Find(s, key).Branch? && Find(s, key).right.Nil?
    requires candidate.Branch? ==> key < candidate.key && candidate.key in Keys(whole) && candidate.node in Nodes(whole)
    requires Keys(s) <= Keys(whole) && Nodes(s) <= Nodes(whole)
    requires forall x :: x in Keys(whole) && x !in Keys(s) && key < x ==> candidate.Branch? && candidate.key <= x
    requires candidate.Branch? ==> forall x :: x in Keys(s) ==> x < candidate.key
    ensures IsLeastAbove(whole, key, SuccessorFrom(s, key, candidate))
  {
    match s
    case Branch(l, _, k, r) =>
      if key < k {
        forall x | x in Keys(whole) - Keys(l) && key < x
          ensures k <= x
        {
          if x !in Keys(s) {
            assert candidate.Branch? && candidate.key <= x;
          }
        }
        SuccessorFromIsLeast(whole, l, key, s);
      } else if key > k {
        assert forall x :: x in Keys(l) ==> x < key;
        SuccessorFromIsLeast(whole, r, key, candidate);
      } else {
        assert forall x :: x in Keys(s) ==> x <= key;
      }
  }

  /** `GetPredecessor` returns the node with the largest key smaller than the node's own, or null. */
  lemma {:induction false} PredecessorIsGreatestBelow<N>(s: Shape<N>, key: int)
    requires Ordered(s) && Find(s, key).Branch?
    ensures IsGreatestBelow(s, key, Predecessor(s, key))
  {
    var t := Find(s, key);
    if t.left.Branch? {
      FindIsMember(s, key);
      RightmostIsMaximum(t.left);
      MaximumBelowIsLeftMaximum(s, key);
    } else {
      PredecessorFromIsGreatest(s, s, key, Nil);
    }
  }

  /** `GetSuccessor` returns the node with the smallest key larger than the node's own, or null. */
  lemma {:induction false} SuccessorIsLeastAbove<N>(s: Shape<N>, key: int)
    requires Ordered(s) && Find(s, key).Branch?
    ensures IsLeastAbove(s, key, Successor(s, key))
  {
    var t := Find(s, key);
    if t.right.Branch? {
      FindIsMember(s, key);
      LeftmostIsMinimum(t.right);
      MinimumAboveIsRightMinimum(s, key);
    } else {
      SuccessorFromIsLeast(s, s, key, Nil);
    }
  }

  /**
   * Chaining `GetSuccessor` walks the keys in ascending order: the successor of the `i`-th
   * smallest key is the `i + 1`-th, and the largest key has none.
   */
  lemma SuccessorChainsInOrder<N>(s: Shape<N>, i: nat)
    requires Ordered(s) && i < |InOrderKeys(s)|
    ensures Find(s, InOrderKeys(s)[i]).Branch?
    ensures i + 1 < |InOrderKeys(s)| ==>
              Successor(s, InOrderKeys(s)[i]).Branch? && Successor(s, InOrderKeys(s)[i]).key == InOrderKeys(s)[i + 1]
    ensures i + 1 == |InOrderKeys(s)| ==> Successor(s, InOrderKeys(s)[i]).Nil?
  {
    var xs := InOrderKeys(s);
    InOrderKeysAreKeys(s);
    InOrderIncreasing(s);
    FindIsMember(s, xs[i]);
    SuccessorIsLeastAbove(s, xs[i]);
    IncreasingNeighbours(xs, i);
    if i + 1 < |xs| {
      assert xs[i + 1] in Keys(s) && xs[i] < xs[i + 1];
    }
  }

  /**
   * Chaining `GetPredecessor` walks the keys in descending order: the predecessor of the
   * `i`-th smallest key is the `i - 1`-th, and the smallest key has none.
   */
  lemma PredecessorChainsInOrder<N>(s: Shape<N>, i: nat)
    requires Ordered(s) && i < |InOrderKeys(s)|
    ensures Find(s, InOrderKeys(s)[i]).Branch?
    ensures 0 < i ==>
              Predecessor(s, InOrderKeys(s)[i]).Branch? && Predecessor(s, InOrderKeys(s)[i]).key == InOrderKeys(s)[i - 1]
    ensures i == 0 ==> Predecessor(s, InOrderKeys(s)[i]).Nil?
  {
    var xs := InOrderKeys(s);
    InOrderKeysAreKeys(s);
    InOrderIncreasing(s);
    FindIsMember(s, xs[i]);
    PredecessorIsGreatestBelow(s, xs[i]);
    IncreasingNeighbours(xs, i);
    if 0 < i {
      assert xs[i - 1] in Keys(s) && xs[i - 1] < xs[i];
    }
  }

  /** In a strictly increasing sequence, the next larger element after `xs[i]` is `xs[i + 1]`. */
  lemma IncreasingNeighbours(xs: seq<int>, i: nat)
    requires StrictlyIncreasing(xs) && i < |xs|
    ensures forall x :: x in xs && xs[i] < x ==> i + 1 < |xs| && xs[i + 1] <= x
    ensures forall x :: x in xs && x < xs[i] ==> 0 < i && x <= xs[i - 1]
  {
    forall x | x in xs && xs[i] < x
      ensures i + 1 < |xs| && xs[i + 1] <= x
    {
      var j :| 0 <= j < |xs| && xs[j] == x;
      assert i < j;
    }
    forall x | x in xs && x < xs[i]
      ensures 0 < i && x <= xs[i - 1]
    {
      var j :| 0 <= j < |xs| && xs[j] == x;
      assert j < i;
    }
  }

  /**
   * When the branch for `key` has a left child, the keys of the tree that are smaller than
   * `key` are at most the maximum of that left subtree.
   */
  lemma {:induction false} MaximumBelowIsLeftMaximum<N>(s: Shape<N>, key: int)
    requires Ordered(s) && Find(s, key).Branch? && Find(s, key).left.Branch?
    ensures Keys(Find(s, key)) <= Keys(s) && Nodes(Find(s, key)) <= Nodes(s)
    ensures forall x :: x in Keys(s) && x < key ==> x <= Rightmost(Find(s, key).left).key
  {
    FindIsMember(s, key);
    RightmostIsMaximum(Find(s, key).left);
    match s
    case Branch(l, _, k, r) =>
      if key > k {
        MaximumBelowIsLeftMaximum(r, key);
        FindIsMember(r, key);
      } else if key < k {
        MaximumBelowIsLeftMaximum(l, key);
      }
  }

  /** The mirror image of `MaximumBelowIsLeftMaximum`. */
  lemma {:induction false} MinimumAboveIsRightMinimum<N>(s: Shape<N>, key: int)
    requires Ordered(s) && Find(s, key).Branch? && Find(s, key).right.Branch?
    ensures Keys(Find(s, key)) <= Keys(s) && Nodes(Find(s, key)) <= Nodes(s)
    ensures forall x :: x in Keys(s) && key < x ==> Leftmost(Find(s, key).right).key <= x
  {
    FindIsMember(s, key);
    LeftmostIsMinimum(Find(s, key).right);
    match s
    case Branch(l, _, k, r) =>
      if key > k {
        MinimumAboveIsRightMinimum(r, key);
      } else if key < k {
        MinimumAboveIsRightMinimum(l, key);
        FindIsMember(l, key);
      }
  }
}
