/** The dictionary: a wrapper holding a heap-allocated tree and forwarding
    every operation to it. Only the display adds a check of its own, the
    emptiness guard before the walk. */
module Dictionaries {
  import opened WordPairs
  import opened Failures
  import opened TreeModel
  import Bst

  class Dictionary {
    var keyValuePairs: Bst.BST

    /** The tree is well formed. The dictionary itself never changes its
        field; everything it changes is the tree and its nodes. */
    ghost predicate Valid()
      reads this, keyValuePairs, keyValuePairs.Repr
    {
      keyValuePairs.Valid()
    }

    /** The associations stored, keyed by English word. */
    ghost function Contents(): map<Key, Value>
      reads this, keyValuePairs
    {
      keyValuePairs.Contents()
    }

    /** An empty dictionary over a new empty tree. */
    constructor ()
      ensures Valid() && fresh(keyValuePairs) && fresh(keyValuePairs.Repr)
      ensures Contents() == map[] && GetElementCount() == 0
    {
      keyValuePairs := new Bst.BST();
    }

    /** The number of associations stored. */
    function GetElementCount(): (n: nat)
      reads this, keyValuePairs, keyValuePairs.Repr
      requires Valid()
      ensures n == |Contents()|
    {
      keyValuePairs.GetElementCount()
    }

    /** Puts newElement into the dictionary through the tree's insertion:
        a key already present fails with AlreadyExists and changes nothing;
        otherwise exactly the new association is added and the count grows
        by one. */
    method Put(newElement: WordPair) returns (r: Outcome)
      requires Valid()
      modifies keyValuePairs, keyValuePairs.Repr
      ensures Valid()
      ensures r.Pass? <==> newElement.english !in old(Contents())
      ensures r.Fail? ==>
        && r.error == AlreadyExists
        && unchanged(keyValuePairs) && unchanged(old(keyValuePairs.Repr))
      ensures r.Pass? ==>
        && Contents() == old(Contents())[newElement.english := newElement.translation]
        && GetElementCount() == old(GetElementCount()) + 1
        && Get(newElement) == Success(newElement)
        && fresh(keyValuePairs.Repr - old(keyValuePairs.Repr))
      ensures old(keyValuePairs.Repr) <= keyValuePairs.Repr
    {
      r := keyValuePairs.Insert(newElement);
      if r.Pass? {
        keyValuePairs.CountMatchesContents();
      }
    }

    /** Gets the stored element whose key equals the target's: fails with
        EmptyCollection on an empty dictionary, with NotFound when the key
        is absent. Being a function, it cannot change the dictionary. */
    function Get(targetElement: WordPair): (r: Result<WordPair>)
      reads this, keyValuePairs, keyValuePairs.Repr
      requires Valid()
      ensures Contents() == map[] ==> r == Failure(EmptyCollection)
      ensures Contents() != map[] ==>
        var k := targetElement.english;
        r == if k in Contents() then Success(WordPair(k, Contents()[k])) else Failure(NotFound)
    {
      keyValuePairs.Retrieve(targetElement)
    }

    /** The entries handed to the visitor: EmptyCollection on an empty
        dictionary, before any visit; otherwise every association once, in
        strictly ascending key order. */
    function DisplayContent(): (r: Result<seq<WordPair>>)
      reads this, keyValuePairs, keyValuePairs.Repr
      requires Valid()
      ensures r.Failure? <==> Contents() == map[]
      ensures r.Failure? ==> r.error == EmptyCollection
      ensures r.Success? ==>
        && StrictlyAscending(r.value)
        && ListsExactly(r.value, Contents())
        && |r.value| == GetElementCount()
    {
      if GetElementCount() == 0 then
        Failure(EmptyCollection)
      else
        keyValuePairs.CountMatchesContents();
        keyValuePairs.TraverseInOrder()
    }
  }
}
