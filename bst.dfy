/** The link-based binary search tree: BSTNode objects on the heap, linked
    through their left and right fields, owned by a BST object that keeps
    the root and the element count.

    The BST carries, as ghost state, a Shape: a value that names which node
    sits where. Linked says that the real links follow the shape, Distinct
    that no node occurs twice in it (tree-shaped ownership, no cycle), and
    Abstract reads off the Tree value the nodes stand for. */
module Bst {
  import opened WordPairs
  import opened Failures
  import opened TreeModel

  class BSTNode {
    const element: WordPair
    var left: BSTNode?
    var right: BSTNode?

    /** A new leaf holding element. */
    constructor (element: WordPair)
      ensures this.element == element && left == null && right == null
    {
      this.element := element;
      left, right := null, null;
    }
  }

  datatype Shape = Nil | Cell(left: Shape, node: BSTNode, right: Shape)

  /** The nodes named by a shape. */
  function Nodes(s: Shape): set<BSTNode> {
    match s
    case Nil => {}
    case Cell(l, n, r) => Nodes(l) + {n} + Nodes(r)
  }

  /** The pointer that refers to the subtree: null for an empty one. */
  function RootOf(s: Shape): BSTNode? {
    match s
    case Nil => null
    case Cell(_, n, _) => n
  }

  /** The Tree value the nodes of a shape stand for. */
  function Abstract(s: Shape): Tree {
    match s
    case Nil => Empty
    case Cell(l, n, r) => Tree.Node(Abstract(l), n.element, Abstract(r))
  }

  /** No node occurs twice: each node has one owner and there is no cycle. */
  ghost predicate Distinct(s: Shape) {
    match s
    case Nil => true
    case Cell(l, n, r) =>
      && Distinct(l) && Distinct(r)
      && n !in Nodes(l) && n !in Nodes(r) && Nodes(l) !! Nodes(r)
  }

  /** Every node's left and right links point at the roots of its subshapes. */
  ghost predicate Linked(s: Shape)
    reads Nodes(s)
  {
    match s
    case Nil => true
    case Cell(l, n, r) => n.left == RootOf(l) && n.right == RootOf(r) && Linked(l) && Linked(r)
  }

  /** A node-owning tree has as many nodes as its value. */
  lemma {:induction false} NodeCount(s: Shape)
    requires Distinct(s)
    ensures |Nodes(s)| == Size(Abstract(s))
  {
    match s
    case Nil =>
    case Cell(l, n, r) =>
      NodeCount(l);
      NodeCount(r);
      assert |Nodes(l) + Nodes(r)| == |Nodes(l)| + |Nodes(r)|;
  }

  /** The nodes of a shape held by the program exist. */
  lemma {:induction false} NodesAllocated(s: Shape)
    ensures forall n :: n in Nodes(s) ==> allocated(n)
  {
    match s
    case Nil =>
    case Cell(l, _, r) =>
      NodesAllocated(l);
      NodesAllocated(r);
  }

  class BST {
    var root: BSTNode?
    var elementCount: nat

    /** Which node sits where. */
    ghost var shape: Shape
    /** The nodes of the tree: what the destructor frees. */
    ghost var Repr: set<BSTNode>

    ghost function Model(): Tree
      reads this
    {
      Abstract(shape)
    }

    /** The associations stored, keyed by English word. */
    ghost function Contents(): map<Key, Value>
      reads this
    {
      TreeModel.Contents(Model())
    }

    /** The class invariant: the nodes form a tree owned by this object,
        the tree is a BST, and elementCount is its number of nodes. */
    ghost predicate Valid()
      reads this, Repr
    {
      && Repr == Nodes(shape)
      && Distinct(shape) && Linked(shape) && root == RootOf(shape)
      && IsBst(Model())
      && elementCount == Size(Model())
    }

    /** elementCount is the number of stored keys as well as of nodes. */
    lemma CountMatchesContents()
      requires Valid()
      ensures elementCount == |Nodes(shape)| == |Contents()|
    {
      NodeCount(shape);
      SizeIsKeyCount(Model());
    }

    /** An empty tree. */
    constructor ()
      ensures Valid()
      ensures root == null && elementCount == 0 && Contents() == map[] && Repr == {}
    {
      root := null;
      elementCount := 0;
      shape := Nil;
      Repr := {};
    }

    /** A deep copy: fresh nodes in the same shape holding the same
        elements, and the same count; the source is only read. */
    constructor Copy(aBST: BST)
      requires aBST.Valid()
      ensures Valid() && fresh(Repr)
      ensures Model() == aBST.Model() && elementCount == aBST.elementCount
      ensures Repr !! aBST.Repr
    {
      NodesAllocated(aBST.shape);
      var r;
      ghost var s;
      r, s := CopyR(aBST.root, aBST.shape);
      NodesAllocated(s);
      root, shape, elementCount := r, s, aBST.elementCount;
      Repr := Nodes(s);
    }

    /** Pre-order copy of the subtree at current into freshly allocated
        nodes. */
    static method CopyR(current: BSTNode?, ghost s: Shape) returns (newNode: BSTNode?, ghost s': Shape)
      requires Distinct(s) && Linked(s) && current == RootOf(s)
      ensures Distinct(s') && Linked(s') && newNode == RootOf(s')
      ensures fresh(Nodes(s')) && Abstract(s') == Abstract(s)
      decreases s
    {
      if current == null {
        return null, Nil;
      }
      NodesAllocated(s);
      newNode := new BSTNode(current.element);
      assert Linked(s);
      assert Linked(s.left) && Distinct(s.left) && current.left == RootOf(s.left);
      NodesAllocated(s.right);
      var l;
      ghost var sl;
      l, sl := CopyR(current.left, s.left);
      NodesAllocated(sl);
      assert Linked(s.right) && Distinct(s.right) && current.right == RootOf(s.right);
      var r;
      ghost var sr;
      r, sr := CopyR(current.right, s.right);
      assert newNode !in Nodes(sl) && newNode !in Nodes(sr) && Nodes(sl) !! Nodes(sr);
      assert Linked(sl);
      newNode.left, newNode.right := l, r;
      s' := Cell(sl, newNode, sr);
      assert Linked(sl) && Linked(sr);
    }

    /** The number of elements stored: the number of distinct keys, and
        the number of nodes. */
    function GetElementCount(): (n: nat)
      reads this, Repr
      requires Valid()
      ensures n == |Contents()| && n == |Nodes(shape)|
    {
      CountMatchesContents();
      elementCount
    }

    /** Inserts newElement. A key already stored fails with AlreadyExists
        and leaves the tree untouched; otherwise the element is hung as a
        new leaf (as the root when the tree is empty), the count grows by
        one, and no other link changes. */
    method Insert(newElement: WordPair) returns (r: Outcome)
      requires Valid()
      modifies this, Repr
      ensures Valid()
      ensures r.Pass? <==> newElement.english !in old(Contents())
      ensures r.Fail? ==> r.error == AlreadyExists && unchanged(this) && unchanged(old(Repr))
      ensures r.Pass? ==>
        && Contents() == old(Contents())[newElement.english := newElement.translation]
        && elementCount == old(elementCount) + 1
        && AddsLeaf(old(Model()), Model(), newElement)
        && fresh(Repr - old(Repr))
      ensures old(elementCount) == 0 ==>
        r.Pass? && root != null && root.element == newElement && elementCount == 1
      ensures old(root) != null ==> root == old(root)
      ensures old(Repr) <= Repr
      ensures forall n, m :: n in Repr - old(Repr) && m in Repr - old(Repr) ==> n == m
      ensures forall n :: n in old(Repr) ==>
        && (n.left == old(n.left) || (old(n.left) == null && fresh(n.left)))
        && (n.right == old(n.right) || (old(n.right) == null && fresh(n.right)))
    {
      var newBSTNode := new BSTNode(newElement);
      ghost var before := Model();
      InsertFailsOnDuplicate(before, newElement);
      if elementCount == 0 {
        root := newBSTNode;
        elementCount := elementCount + 1;
        shape := Cell(Nil, newBSTNode, Nil);
        Repr := {newBSTNode};
        assert Repr - old(Repr) == {newBSTNode};
      } else {
        var inserted;
        ghost var s';
        inserted, s' := InsertR(newBSTNode, root, shape);
        if !inserted {
          return Fail(AlreadyExists);
        }
        elementCount := elementCount + 1;
        shape := s';
        Repr := Repr + {newBSTNode};
        assert Repr - old(Repr) == {newBSTNode};
      }
      InsertAddsAssociation(before, newElement);
      InsertKeepsBst(before, newElement);
      InsertGrowsByOne(before, newElement);
      InsertAddsLeaf(before, newElement);
      r := Pass;
    }

    /** Recursive insertion below current (which is not null): an equal key
        answers false and changes nothing; otherwise the descent goes left
        on a smaller key and right on any other, and newBSTNode is linked
        into the first empty child slot reached. */
    static method InsertR(newBSTNode: BSTNode, current: BSTNode, ghost s: Shape)
      returns (inserted: bool, ghost s': Shape)
      requires Distinct(s) && Linked(s) && current == RootOf(s)
      requires forall n :: n in Nodes(s) ==> allocated(n)
      requires newBSTNode.left == null && newBSTNode.right == null && newBSTNode !in Nodes(s)
      modifies Nodes(s)
      ensures Distinct(s') && Linked(s') && current == RootOf(s')
      ensures TreeModel.Insert(Abstract(s), newBSTNode.element) ==
        if inserted then Some(Abstract(s')) else None
      ensures Nodes(s') == if inserted then Nodes(s) + {newBSTNode} else Nodes(s)
      ensures !inserted ==> s' == s && unchanged(Nodes(s))
      ensures forall n :: n in Nodes(s) ==>
        && (n.left == old(n.left) || (old(n.left) == null && n.left == newBSTNode))
        && (n.right == old(n.right) || (old(n.right) == null && n.right == newBSTNode))
      decreases s
    {
      if SameKey(newBSTNode.element, current.element) {
        return false, s;
      } else if Precedes(newBSTNode.element, current.element) {
        if current.left == null {
          current.left := newBSTNode;
          inserted, s' := true, Cell(Cell(Nil, newBSTNode, Nil), current, s.right);
        } else {
          ghost var sl;
          inserted, sl := InsertR(newBSTNode, current.left, s.left);
          s' := if inserted then Cell(sl, current, s.right) else s;
        }
      } else {
        if current.right == null {
          current.right := newBSTNode;
          inserted, s' := true, Cell(s.left, current, Cell(Nil, newBSTNode, Nil));
        } else {
          ghost var sr;
          inserted, sr := InsertR(newBSTNode, current.right, s.right);
          s' := if inserted then Cell(s.left, current, sr) else s;
        }
      }
    }

    /** Retrieves the stored element whose key equals the target's: fails
        with EmptyCollection on an empty tree, with NotFound when no key
        matches. Being a function, it cannot change the tree. */
    function Retrieve(targetElement: WordPair): (r: Result<WordPair>)
      reads this, Repr
      requires Valid()
      ensures Contents() == map[] ==> r == Failure(EmptyCollection)
      ensures Contents() != map[] ==>
        var k := targetElement.english;
        r == if k in Contents() then Success(WordPair(k, Contents()[k])) else Failure(NotFound)
    {
      CountMatchesContents();
      if elementCount == 0 then
        Failure(EmptyCollection)
      else
        FindCorrect(Model(), targetElement);
        RetrieveR(targetElement, root, shape)
    }

    /** Recursive search below current. */
    static function RetrieveR(targetElement: WordPair, current: BSTNode?, ghost s: Shape): (r: Result<WordPair>)
      reads Nodes(s)
      requires Linked(s) && current == RootOf(s)
      ensures r == Find(Abstract(s), targetElement)
      decreases s
    {
      if current == null then
        Failure(NotFound)
      else if SameKey(targetElement, current.element) then
        Success(current.element)
      else if Precedes(targetElement, current.element) then
        RetrieveR(targetElement, current.left, s.left)
      else
        RetrieveR(targetElement, current.right, s.right)
    }

    /** The elements an in-order walk hands to the visitor: fails with
        EmptyCollection on an empty tree, otherwise every stored association
        exactly once, in strictly ascending key order. */
    function TraverseInOrder(): (r: Result<seq<WordPair>>)
      reads this, Repr
      requires Valid()
      ensures r.Failure? <==> Contents() == map[]
      ensures r.Failure? ==> r.error == EmptyCollection
      ensures r.Success? ==>
        && StrictlyAscending(r.value)
        && ListsExactly(r.value, Contents())
        && |r.value| == elementCount
    {
      CountMatchesContents();
      if elementCount == 0 then
        Failure(EmptyCollection)
      else
        InOrderSortedAndExact(Model());
        InOrderLength(Model());
        Success(TraverseInOrderR(root, shape))
    }

    /** Left subtree, then the node, then the right subtree. */
    static function TraverseInOrderR(current: BSTNode?, ghost s: Shape): (r: seq<WordPair>)
      reads Nodes(s)
      requires Linked(s) && current == RootOf(s)
      ensures r == InOrder(Abstract(s))
      decreases s
    {
      if current == null then
        []
      else
        TraverseInOrderR(current.left, s.left) + [current.element] + TraverseInOrderR(current.right, s.right)
    }
  }

  /** Deep-copy independence: copying a tree and then inserting into the
      copy leaves the original's contents, shape and count as they were. */
  method CopyThenInsert(original: BST, x: WordPair) returns (theCopy: BST, r: Outcome)
    requires original.Valid()
    ensures original.Valid() && theCopy.Valid()
    ensures original.Model() == old(original.Model()) && original.elementCount == old(original.elementCount)
    ensures theCopy.Repr !! original.Repr
    ensures r.Pass? <==> x.english !in original.Contents()
    ensures r.Pass? ==> theCopy.Contents() == original.Contents()[x.english := x.translation]
  {
    theCopy := new BST.Copy(original);
    r := theCopy.Insert(x);
  }
}
