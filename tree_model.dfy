/** The value a linked binary search tree stands for: the shape of its nodes
    and the pair each node holds. The recursive algorithms of the tree are
    defined here on that value, and what they promise is proved here; the
    heap implementation is tied to these definitions. */
module TreeModel {
  import opened WordPairs
  import opened Failures

  datatype Tree = Empty | Node(left: Tree, element: WordPair, right: Tree)

  /** The associations stored in a tree, keyed by English word. */
  function Contents(t: Tree): map<Key, Value> {
    match t
    case Empty => map[]
    case Node(l, e, r) => (Contents(l) + Contents(r))[e.english := e.translation]
  }

  /** Number of nodes. */
  function Size(t: Tree): nat {
    match t
    case Empty => 0
    case Node(l, _, r) => Size(l) + 1 + Size(r)
  }

  /** The BST ordering: every key in a left subtree is less than the node's
      key, every key in a right subtree greater (strictly, so no key twice). */
  ghost predicate IsBst(t: Tree) {
    match t
    case Empty => true
    case Node(l, e, r) =>
      && IsBst(l) && IsBst(r)
      && (forall k :: k in Contents(l) ==> Less(k, e.english))
      && (forall k :: k in Contents(r) ==> Less(e.english, k))
  }

  /** The elements in the order an in-order walk visits them. */
  function InOrder(t: Tree): seq<WordPair> {
    match t
    case Empty => []
    case Node(l, e, r) => InOrder(l) + [e] + InOrder(r)
  }

  /** Recursive search: equal keys stop, a smaller key goes left, any other
      goes right, and an empty slot means the key is absent. */
  function Find(t: Tree, target: WordPair): Result<WordPair> {
    match t
    case Empty => Failure(NotFound)
    case Node(l, e, r) =>
      if SameKey(target, e) then Success(e)
      else if Precedes(target, e) then Find(l, target)
      else Find(r, target)
  }

  /** Recursive insertion: an equal key aborts (None), a smaller key goes
      left, any other goes right, and the new element is hung as a leaf in
      the first empty slot reached. */
  function Insert(t: Tree, x: WordPair): Option<Tree> {
    match t
    case Empty => Some(Node(Empty, x, Empty))
    case Node(l, e, r) =>
      if SameKey(x, e) then None
      else if Precedes(x, e) then
        (match Insert(l, x)
         case None => None
         case Some(l') => Some(Node(l', e, r)))
      else
        (match Insert(r, x)
         case None => None
         case Some(r') => Some(Node(l, e, r')))
  }

  datatype Option<T> = None | Some(value: T)

  /** t' is t with exactly one empty slot replaced by a leaf holding x, all
      other nodes and links kept. */
  ghost predicate AddsLeaf(t: Tree, t': Tree, x: WordPair) {
    match t
    case Empty => t' == Node(Empty, x, Empty)
    case Node(l, e, r) =>
      && t'.Node? && t'.element == e
      && ((AddsLeaf(l, t'.left, x) && t'.right == r) || (t'.left == l && AddsLeaf(r, t'.right, x)))
  }

  /** Strictly ascending keys, any two positions compared. */
  ghost predicate StrictlyAscending(s: seq<WordPair>) {
    forall i, j :: 0 <= i < j < |s| ==> Less(s[i].english, s[j].english)
  }

  /** s holds exactly the associations of m. */
  ghost predicate ListsExactly(s: seq<WordPair>, m: map<Key, Value>) {
    forall w :: w in s <==> w.english in m && m[w.english] == w.translation
  }

  // ---------------------------------------------------------------- lemmas

  lemma {:induction false} InOrderLength(t: Tree)
    ensures |InOrder(t)| == Size(t)
  {
    match t
    case Empty =>
    case Node(l, _, r) =>
      InOrderLength(l);
      InOrderLength(r);
  }

  lemma {:induction false} InOrderKeys(t: Tree)
    ensures forall w :: w in InOrder(t) ==> w.english in Contents(t)
  {
    match t
    case Empty =>
    case Node(l, e, r) =>
      InOrderKeys(l);
      InOrderKeys(r);
  }

  /** An in-order walk of a BST lists every stored association once, in
      strictly ascending key order, and nothing else. */
  lemma {:induction false} InOrderSortedAndExact(t: Tree)
    requires IsBst(t)
    ensures StrictlyAscending(InOrder(t))
    ensures ListsExactly(InOrder(t), Contents(t))
  {
    match t
    case Empty =>
    case Node(l, e, r) =>
      InOrderSortedAndExact(l);
      InOrderSortedAndExact(r);
      InOrderKeys(l);
      InOrderKeys(r);
      var a, b := InOrder(l), InOrder(r);
      var s := a + [e] + b;
      forall i, j | 0 <= i < j < |s|
        ensures Less(s[i].english, s[j].english)
      {
        if j < |a| {
        } else if i < |a| && j == |a| {
          assert s[i] in a;
        } else if i < |a| {
          assert s[i] in a && s[j] in b;
          LessTransitive(s[i].english, e.english, s[j].english);
        } else if i == |a| {
          assert s[j] in b;
        } else {
          assert s[i] == b[i - |a| - 1] && s[j] == b[j - |a| - 1];
        }
      }
      forall w
        ensures w in s <==> w.english in Contents(t) && Contents(t)[w.english] == w.translation
      {
        var m := Contents(t);
        if w in a {
          assert Less(w.english, e.english);
          LessIrreflexive(w.english);
          if w.english in Contents(r) {
            LessAsymmetric(w.english, e.english);
          }
        } else if w in b {
          assert Less(e.english, w.english);
          LessIrreflexive(w.english);
          if w.english in Contents(l) {
            LessAsymmetric(w.english, e.english);
          }
        }
      }
  }

  /** In a BST the node count equals the number of distinct keys. */
  lemma {:induction false} SizeIsKeyCount(t: Tree)
    requires IsBst(t)
    ensures Size(t) == |Contents(t)|
  {
    match t
    case Empty =>
    case Node(l, e, r) =>
      SizeIsKeyCount(l);
      SizeIsKeyCount(r);
      var kl, kr := Contents(l).Keys, Contents(r).Keys;
      forall k | k in kl && k in kr ensures false {
        LessAsymmetric(k, e.english);
      }
      assert kl * kr == {};
      LessIrreflexive(e.english);
      assert Contents(t).Keys == kl + kr + {e.english};
      assert e.english !in kl + kr;
  }

  /** Search in a BST finds the stored element exactly when the key is
      stored, and reports NotFound otherwise. */
  lemma {:induction false} FindCorrect(t: Tree, target: WordPair)
    requires IsBst(t)
    ensures var k := target.english;
      Find(t, target) == if k in Contents(t) then Success(WordPair(k, Contents(t)[k])) else Failure(NotFound)
  {
    match t
    case Empty =>
    case Node(l, e, r) =>
      var k := target.english;
      if SameKey(target, e) {
      } else if Precedes(target, e) {
        FindCorrect(l, target);
        if k in Contents(r) {
          LessAsymmetric(k, e.english);
        }
      } else {
        FindCorrect(r, target);
        LessTrichotomous(k, e.english);
        if k in Contents(l) {
          LessAsymmetric(k, e.english);
        }
      }
  }

  /** Insertion into a BST fails exactly on a key already stored. */
  lemma {:induction false} InsertFailsOnDuplicate(t: Tree, x: WordPair)
    requires IsBst(t)
    ensures Insert(t, x).None? <==> x.english in Contents(t)
  {
    match t
    case Empty =>
    case Node(l, e, r) =>
      var k := x.english;
      if SameKey(x, e) {
      } else if Precedes(x, e) {
        InsertFailsOnDuplicate(l, x);
        if k in Contents(r) {
          LessAsymmetric(k, e.english);
        }
      } else {
        InsertFailsOnDuplicate(r, x);
        LessTrichotomous(k, e.english);
        if k in Contents(l) {
          LessAsymmetric(k, e.english);
        }
      }
  }

  lemma UpdateLeftOfUnion(a: map<Key, Value>, b: map<Key, Value>, k: Key, v: Value, k0: Key, v0: Value)
    requires k !in b && k != k0
    ensures (a[k := v] + b)[k0 := v0] == (a + b)[k0 := v0][k := v]
  {
  }

  lemma UpdateRightOfUnion(a: map<Key, Value>, b: map<Key, Value>, k: Key, v: Value, k0: Key, v0: Value)
    requires k != k0
    ensures (a + b[k := v])[k0 := v0] == (a + b)[k0 := v0][k := v]
  {
  }

  /** A successful insertion into a BST adds exactly the new association. */
  lemma {:induction false} InsertAddsAssociation(t: Tree, x: WordPair)
    requires IsBst(t) && Insert(t, x).Some?
    ensures Contents(Insert(t, x).value) == Contents(t)[x.english := x.translation]
  {
    match t
    case Empty =>
    case Node(l, e, r) =>
      var k := x.english;
      if Precedes(x, e) {
        InsertAddsAssociation(l, x);
        if k in Contents(r) {
          LessAsymmetric(k, e.english);
        }
        LessIrreflexive(k);
        UpdateLeftOfUnion(Contents(l), Contents(r), k, x.translation, e.english, e.translation);
      } else {
        InsertAddsAssociation(r, x);
        UpdateRightOfUnion(Contents(l), Contents(r), k, x.translation, e.english, e.translation);
      }
  }

  /** After a successful insertion, a search for the inserted key finds the
      inserted element, and a search for any other key answers as before. */
  lemma FindAfterInsert(t: Tree, x: WordPair, y: WordPair)
    requires IsBst(t) && Insert(t, x).Some?
    ensures Find(Insert(t, x).value, y) == if SameKey(y, x) then Success(x) else Find(t, y)
  {
    InsertKeepsBst(t, x);
    InsertAddsAssociation(t, x);
    FindCorrect(t, y);
    FindCorrect(Insert(t, x).value, y);
  }

  /** A successful insertion keeps the BST ordering. */
  lemma {:induction false} InsertKeepsBst(t: Tree, x: WordPair)
    requires IsBst(t) && Insert(t, x).Some?
    ensures IsBst(Insert(t, x).value)
  {
    match t
    case Empty =>
    case Node(l, e, r) =>
      if Precedes(x, e) {
        InsertKeepsBst(l, x);
        InsertAddsAssociation(l, x);
      } else {
        InsertKeepsBst(r, x);
        InsertAddsAssociation(r, x);
        LessTrichotomous(x.english, e.english);
      }
  }

  /** A successful insertion adds exactly one node. */
  lemma {:induction false} InsertGrowsByOne(t: Tree, x: WordPair)
    requires Insert(t, x).Some?
    ensures Size(Insert(t, x).value) == Size(t) + 1
  {
    match t
    case Empty =>
    case Node(l, e, r) =>
      if Precedes(x, e) {
        InsertGrowsByOne(l, x);
      } else {
        InsertGrowsByOne(r, x);
      }
  }

  /** A successful insertion only hangs a new leaf into an empty slot. */
  lemma {:induction false} InsertAddsLeaf(t: Tree, x: WordPair)
    requires Insert(t, x).Some?
    ensures AddsLeaf(t, Insert(t, x).value, x)
  {
    match t
    case Empty =>
    case Node(l, e, r) =>
      if Precedes(x, e) {
        InsertAddsLeaf(l, x);
      } else {
        InsertAddsLeaf(r, x);
      }
  }
}
