# English–Finnish dictionary: a link-based binary search tree

This project models the data-structure core of a small English–Finnish
translator. A `Dictionary` holds a pointer to a `BST`. The BST is an ordered
map built from heap-allocated `BSTNode`s joined by `left`/`right` links. Each
node holds a `WordPair` (an English word and its translation). Pairs are
identified and ordered by the English word alone, and duplicate keys are
rejected. The tree supports:

- insertion as a new leaf;
- exact-key retrieval;
- an in-order walk that hands each element to a visitor;
- an element count;
- a deep copy.

The dictionary forwards every operation to the tree. Its only logic of its
own is the emptiness guard in front of the display walk.

Modules:

- `WordPairs` (word_pairs.dfy): the element, its key, and the key order. The
  key order is lexicographic order on strings, and it is proved to be a
  strict total order.
- `Failures` (failures.dfy): the three exceptions the model keeps, as
  `Result`/`Outcome` values (the allocation failure `UnableToInsertException`
  is left out, see below).
- `TreeModel` (tree_model.dfy): the tree as a value (`Tree`), with its
  contents map, the BST ordering, and the recursive search, insertion and
  in-order walk. Everything the recursive algorithms promise is proved here
  once.
- `Bst` (bst.dfy): the heap implementation. `BSTNode` and `BST` are classes
  whose fields the methods update in place. `insert`/`insertR` relink nodes,
  and `copyR` allocates fresh ones. A ghost `Shape` records which node sits
  where. `Valid()` ties the real links to that shape and the shape to a
  `TreeModel.Tree` value. It is the class invariant of BST.cpp:8 ("it is
  always a BST") together with "`elementCount` is the number of nodes". The
  ghost `Repr` is the set of nodes the tree owns: the nodes its destructor
  frees.
- `Dictionaries` (dictionary.dfy): the `Dictionary` class and its field
  `keyValuePairs`.

The read-only operations (`getElementCount`, `retrieve`/`retrieveR`,
`traverseInOrder`/`traverseInOrderR`, and their dictionary forwards) are
functions. Their C++ `const` promise, "this method does not change the
tree", therefore holds by construction. The recursive helpers walk the real
pointers and are proved equal to the `TreeModel` functions on the shape.

## Model

| member | source | states |
|---|---|---|
| WordPairs.LessIrreflexive | BST.cpp:122-124 | no key precedes itself, so the `==` test and the `<` test of the descent never both hold |
| WordPairs.LessTransitive | BST.cpp:124 | the key order used to descend is transitive |
| WordPairs.LessTrichotomous | BST.cpp:122-141 | any two keys are equal or one precedes the other, so the final `else` of the descent means "greater" |
| WordPairs.LessAsymmetric | BST.cpp:178-182 | if a key precedes another, the reverse does not hold, so a search never needs to look on the other side |
| WordPairs.ComparisonIgnoresTranslation | Translator.cpp:101-103 | pair equality and pair order depend on the English word only, so a key-only probe compares like the stored pair |
| TreeModel.InOrderLength | BST.cpp:206-213 | an in-order walk visits as many elements as the tree has nodes |
| TreeModel.InOrderKeys | BST.cpp:206-213 | every element the walk visits has its key stored in the tree |
| TreeModel.InOrderSortedAndExact | BST.cpp:206-213 | on a BST the walk lists every stored association exactly once, in strictly ascending key order, and nothing else |
| TreeModel.SizeIsKeyCount | BST.cpp:8 | in a BST the number of nodes equals the number of distinct keys |
| TreeModel.FindCorrect | BST.cpp:170-183 | on a BST the recursive search returns the stored pair for the target's key when that key is stored, and NotFound when it is not |
| TreeModel.InsertFailsOnDuplicate | BST.cpp:122-123 | recursive insertion into a BST fails exactly when the key is already stored |
| TreeModel.InsertAddsAssociation | BST.cpp:120-143 | a successful insertion adds exactly the new key/translation to the contents |
| TreeModel.FindAfterInsert | BST.cpp:120-143 | after a successful insertion, a search for the new key finds the new pair, and a search for any other key answers as before |
| TreeModel.InsertKeepsBst | BST.cpp:8 | a successful insertion keeps the BST ordering |
| TreeModel.InsertGrowsByOne | BST.cpp:111-113 | a successful insertion adds exactly one node |
| TreeModel.InsertAddsLeaf | BST.cpp:124-141 | insertion only replaces one empty child slot with a leaf holding the new pair; every other node and link is kept |
| Bst.NodeCount | BST.cpp:8 | a tree of distinct nodes has as many nodes as its value has elements |
| Bst.BST.CountMatchesContents | BST.cpp:8 | under the invariant, `elementCount` equals both the number of owned nodes and the number of stored keys |
| Bst.BST.constructor | BST.cpp:30 | a new tree is valid and empty: null root, count 0, no nodes, no associations |
| Bst.BST.Copy | BST.cpp:33-39 | the copy is valid, holds a tree of the same shape with the same elements and the same count, is made only of fresh nodes, and shares no node with the source (which is only read) |
| Bst.BST.CopyR | BST.cpp:62-72 | the pre-order copy returns the root of fresh, distinct, correctly linked nodes whose tree value equals the source subtree's |
| Bst.BST.GetElementCount | BST.cpp:54-58 | the count equals the number of stored keys and the number of owned nodes |
| Bst.BST.Insert | BST.cpp:96-115 | fails with AlreadyExists exactly when the key is stored, and then changes neither the tree object nor any node. Otherwise it adds exactly the new association, increments the count by one, hangs one new leaf, and keeps the invariant. Into an empty tree the new node becomes the root and the count becomes 1; a non-empty tree keeps its root. The tree keeps all its old nodes and gains at most one, and an existing link changes only from null to a fresh node |
| Bst.BST.InsertR | BST.cpp:120-143 | the recursive insertion below a non-null node agrees with `TreeModel.Insert`. On an equal key it answers false and changes nothing. Otherwise it links the new node into one empty child slot and changes no other link |
| Bst.BST.Retrieve | BST.cpp:156-164 | fails with EmptyCollection on an empty tree. Otherwise it returns the stored pair whose key equals the target's, or fails with NotFound when no key matches |
| Bst.BST.RetrieveR | BST.cpp:170-183 | the search along the real links computes `TreeModel.Find` of the subtree's value |
| Bst.BST.TraverseInOrder | BST.cpp:194-202 | fails with EmptyCollection exactly when the tree is empty. Otherwise it yields every stored association exactly once, in strictly ascending key order, `elementCount` elements in all |
| Bst.BST.TraverseInOrderR | BST.cpp:206-213 | the walk along the real links yields `TreeModel.InOrder` of the subtree's value |
| Bst.CopyThenInsert | BST.cpp:33-39 | copying a tree and inserting into the copy leaves the original's tree value and count unchanged, and the two trees share no node |
| Dictionaries.Dictionary.constructor | Dictionary.cpp:24-26 | a new dictionary owns a fresh, valid, empty tree with fresh (empty) node set, so its element count is 0 |
| Dictionaries.Dictionary.GetElementCount | Dictionary.cpp:37-39 | the count equals the number of stored associations |
| Dictionaries.Dictionary.Put | Dictionary.cpp:48-52 | behaves as the tree's insertion: AlreadyExists exactly on a stored key, with nothing changed. Otherwise it adds exactly the new association, increments the count by one, a later `Get` of the key finds the new pair, and every node it adds is fresh, so a caller can keep putting into the same dictionary |
| Dictionaries.Dictionary.Get | Dictionary.cpp:61-63 | EmptyCollection on an empty dictionary. Otherwise the stored pair for the target's key, or NotFound |
| Dictionaries.Dictionary.DisplayContent | Dictionary.cpp:69-75 | fails with EmptyCollection exactly when the dictionary is empty, before any visit. Otherwise it visits every association once, in strictly ascending key order, as many as the count |

## Left out

- Allocation failure (BST.cpp:99-101) is not modelled. `new` in the source throws rather than returning null, so that branch cannot be reached, and Dafny's `new` does not fail.
- Memory release is not modelled: `~BST`/`clearR` (BST.cpp:43-47, 75-83), `~Dictionary` (Dictionary.cpp:29-31), and the `delete` of the unused node on a duplicate insert (BST.cpp:109). Dafny is garbage-collected. What the destructor frees is kept only as the ghost set `Repr` of owned nodes.
- Bst.BST.Retrieve: returns the found element by value. The source returns a mutable reference into the node, through which a caller could change the translation; that aliasing is not modelled. The same applies to Dictionaries.Dictionary.Get.
- Bst.BST.TraverseInOrder: the `visit` callback and its side effects (printing through `operator<<`) are not modelled. The walk returns the sequence of elements it would visit, in order. The same applies to Dictionaries.Dictionary.DisplayContent.
- WordPair.cpp is not part of this model. Its `==` and `<` are taken to compare the English word only, with `<` as lexicographic order on `std::string`, and its stream operators are left out.
- Bst.BST.GetElementCount: the count is an unbounded `nat`. The source's `unsigned int`, which would wrap after 2^32 insertions, is not modelled, because no tree that fits in memory reaches that count.
- Bst.BST.Copy: the source guards `copyR` with `aBST.root != nullptr` and otherwise keeps the initial null root and zero count. The model always calls `CopyR`, whose null case returns null. Since the count of a valid empty tree is 0, the result is the same.
- Bst.BST.InsertR: requires that the nodes it walks are allocated. In the running program every node reached from `root` exists, so this adds nothing to what the source demands.
- Translator.cpp (file reading, splitting on ':', the command loop on standard input, console messages) is not part of this model: it is I/O around the dictionary.
- Bst.BST.constructor: the default constructor at BST.cpp:30 has an empty body; its null root and zero count come from member initializers in BST.h, which is not part of this model, and are assumed here.
