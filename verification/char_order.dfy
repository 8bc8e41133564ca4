/** The character ordering of the trie (CharTrie/TrieData.h): the "no value" sentinel,
    the default case-insensitive comparator, and the two wrappers `Node::isLess` and
    `Node::isEqual` through which every comparison in the trie goes. */
module CharOrder {

  /** `get_undefined_value<int>()`: the value a node holds when no value was set, and
      what `find` answers for a key it cannot resolve. */
  const Undefined: int := -1

  /** A comparator policy `KeyCharLess`: any two-argument predicate on characters. */
  type Less = (char, char) -> bool

  /** `tolower` restricted to ASCII letters. */
  function ToLower(c: char): char {
    if 'A' <= c <= 'Z' then (c as int + 32) as char else c
  }

  /** `compare_no_case`: compares the lower-cased characters. */
  function CompareNoCase(a: char, b: char): bool {
    ToLower(a) < ToLower(b)
  }

  /** `Node::isLess`: identical characters are never less; otherwise ask the comparator. */
  function IsLess(less: Less, a: char, b: char): bool {
    if a == b then false else less(a, b)
  }

  /** `Node::isEqual`: identical characters are equal; otherwise neither orders first. */
  function IsEqual(less: Less, a: char, b: char): bool {
    if a == b then true else !less(a, b) && !less(b, a)
  }

  ghost predicate Incomparable(less: Less, a: char, b: char) {
    !less(a, b) && !less(b, a)
  }

  /** What the trie's sorted sibling chains rely on: `less` is a strict weak order. */
  ghost predicate StrictWeakOrder(less: Less) {
    && (forall a :: !less(a, a))
    && (forall a, b, c :: less(a, b) && less(b, c) ==> less(a, c))
    && (forall a, b, c :: Incomparable(less, a, b) && Incomparable(less, b, c) ==> Incomparable(less, a, c))
  }

  /** The wrappers' own laws, which hold for every comparator whatsoever. */
  lemma WrapperLaws(less: Less)
    ensures forall a :: !IsLess(less, a, a)
    ensures forall a :: IsEqual(less, a, a)
    ensures forall a, b :: IsEqual(less, a, b) == IsEqual(less, b, a)
    ensures forall a, b :: a != b ==> (IsEqual(less, a, b) <==> !less(a, b) && !less(b, a))
    ensures forall a, b :: IsLess(less, a, b) ==> !IsEqual(less, a, b)
  {
  }

  /** Under a strict weak order the wrappers are the order and its equivalence:
      `IsLess` agrees with `less`, `IsEqual` is an equivalence, and every pair of
      characters is in exactly one of the three relations. */
  lemma StrictWeakOrderWrappers(less: Less, a: char, b: char, c: char)
    requires StrictWeakOrder(less)
    ensures IsLess(less, a, b) == less(a, b)
    ensures IsEqual(less, a, b) == Incomparable(less, a, b)
    ensures IsEqual(less, a, b) && IsEqual(less, b, c) ==> IsEqual(less, a, c)
    ensures less(a, b) ==> !less(b, a)
    ensures (if IsLess(less, a, b) then 1 else 0) + (if IsEqual(less, a, b) then 1 else 0)
          + (if IsLess(less, b, a) then 1 else 0) == 1
  {
    if IsEqual(less, a, b) && IsEqual(less, b, c) && a != b && b != c {
      assert Incomparable(less, a, b) && Incomparable(less, b, c);
    }
  }

  /** Mixing the order with its equivalence stays within the order. */
  lemma LessRespectsEquivalence(less: Less, a: char, b: char, c: char)
    requires StrictWeakOrder(less)
    ensures less(a, b) && IsEqual(less, b, c) ==> less(a, c)
    ensures IsEqual(less, a, b) && less(b, c) ==> less(a, c)
  {
    assert less(c, a) && less(a, b) ==> less(c, b);
    assert Incomparable(less, a, c) && Incomparable(less, c, b) ==> Incomparable(less, a, b);
    assert less(b, c) && less(c, a) ==> less(b, a);
    assert Incomparable(less, b, a) && Incomparable(less, a, c) ==> Incomparable(less, b, c);
  }

  /** The default comparator is a strict weak order whose equivalence is "same letter
      ignoring ASCII case". */
  lemma CompareNoCaseOrder()
    ensures StrictWeakOrder(CompareNoCase)
    ensures forall a, b :: IsEqual(CompareNoCase, a, b) <==> ToLower(a) == ToLower(b)
    ensures IsEqual(CompareNoCase, 'L', 'l') && IsLess(CompareNoCase, 'a', 'B')
  {
  }
}
