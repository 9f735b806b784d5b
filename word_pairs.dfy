/** The elements stored by the dictionary: an English word paired with its
    Finnish translation. Identity and ordering depend on the English word
    alone, so a key-only pair (an empty translation) can probe a lookup. */
module WordPairs {

  type Key = string
  type Value = string

  datatype WordPair = WordPair(english: Key, translation: Value)

  /** Lexicographic order on strings, character by character, a proper
      prefix coming first (the order of std::string). */
  predicate Less(a: Key, b: Key)
    decreases |a|
  {
    if |a| == 0 then |b| > 0
    else if |b| == 0 then false
    else if a[0] != b[0] then a[0] < b[0]
    else Less(a[1..], b[1..])
  }

  /** Equality of two pairs: equal English words. */
  predicate SameKey(x: WordPair, y: WordPair) {
    x.english == y.english
  }

  /** Order of two pairs: the order of their English words. */
  predicate Precedes(x: WordPair, y: WordPair) {
    Less(x.english, y.english)
  }

  lemma {:induction false} LessIrreflexive(a: Key)
    ensures !Less(a, a)
    decreases |a|
  {
    if |a| > 0 {
      LessIrreflexive(a[1..]);
    }
  }

  lemma {:induction false} LessTransitive(a: Key, b: Key, c: Key)
    requires Less(a, b) && Less(b, c)
    ensures Less(a, c)
    decreases |a|
  {
    if |a| > 0 && a[0] == b[0] && b[0] == c[0] {
      LessTransitive(a[1..], b[1..], c[1..]);
    }
  }

  lemma {:induction false} LessTrichotomous(a: Key, b: Key)
    ensures a == b || Less(a, b) || Less(b, a)
    decreases |a|
  {
    if |a| > 0 && |b| > 0 && a[0] == b[0] {
      LessTrichotomous(a[1..], b[1..]);
      if a[1..] == b[1..] {
        assert a == [a[0]] + a[1..] && b == [b[0]] + b[1..];
      }
    }
  }

  lemma LessAsymmetric(a: Key, b: Key)
    requires Less(a, b)
    ensures !Less(b, a)
  {
    if Less(b, a) {
      LessTransitive(a, b, a);
      LessIrreflexive(a);
    }
  }

  /** The comparisons of pairs look at the key only: two pairs with the same
      English word compare alike against every other pair, whatever their
      translations. */
  lemma ComparisonIgnoresTranslation(x: WordPair, x': WordPair, y: WordPair)
    requires x.english == x'.english
    ensures SameKey(x, y) == SameKey(x', y)
    ensures Precedes(x, y) == Precedes(x', y) && Precedes(y, x) == Precedes(y, x')
  {
  }
}
