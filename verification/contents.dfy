/** What a trie stores, independently of how the nodes are linked: the value reached by
    following a key level by level, taking at each level the first sibling whose
    character is equivalent to the key's character. */
module Contents {
  import opened Options
  import opened CharOrder
  import opened Nodes

  /** `Trie` (CharTrie/TrieData.h): only the root pointer, null until first needed. */
  datatype Trie = Trie(root: Tree)

  /** The value stored under `key` below `e`; the empty key names `e` itself. */
  function LookupEntry(less: Less, e: Entry, key: seq<char>): int
    decreases |key|, 1
  {
    if |key| == 0 then e.value else LookupIn(less, Entries(e.child), key)
  }

  /** The value stored under the non-empty `key` in the level `es`. */
  function LookupIn(less: Less, es: seq<Entry>, key: seq<char>): int
    requires |key| > 0
    decreases |key|, 0
  {
    match IndexOf(less, es, key[0])
    case None => Undefined
    case Some(i) => LookupEntry(less, es[i], key[1..])
  }

  function Lookup(less: Less, n: Tree, key: seq<char>): int
    requires n.Node?
  {
    LookupEntry(less, EntryOf(n), key)
  }

  /** The value a trie stores under `key`: nothing at all while the root is null. */
  function Value(less: Less, t: Trie, key: seq<char>): int {
    if t.root.Nil? then Undefined else Lookup(less, t.root, key)
  }

  /** Two keys the comparator cannot tell apart, character by character. */
  predicate KeyEquiv(less: Less, a: seq<char>, b: seq<char>) {
    |a| == |b| && forall i :: 0 <= i < |a| ==> IsEqual(less, a[i], b[i])
  }

  /** `k` starts with a key equivalent to `p`. */
  predicate HasKeyPrefix(less: Less, k: seq<char>, p: seq<char>) {
    |p| <= |k| && KeyEquiv(less, k[..|p|], p)
  }

  lemma HasKeyPrefixCons(less: Less, k: seq<char>, p: seq<char>)
    requires |p| > 0
    ensures HasKeyPrefix(less, k, p) <==>
              |k| > 0 && IsEqual(less, k[0], p[0]) && HasKeyPrefix(less, k[1..], p[1..])
  {
    if |k| > 0 && |p| <= |k| {
      assert forall i :: 1 <= i < |p| ==> k[..|p|][i] == k[1..][..|p| - 1][i - 1];
    }
  }

  lemma HasKeyPrefixFull(less: Less, k: seq<char>, p: seq<char>)
    ensures HasKeyPrefix(less, k, p) && |k[|p|..]| == 0 <==> KeyEquiv(less, k, p)
  {
    if |p| <= |k| {
      assert k[..|p|] == k <== |k| == |p|;
    }
  }

  lemma HasKeyPrefixSplit(less: Less, k: seq<char>, p: seq<char>)
    requires |p| > 0
    ensures HasKeyPrefix(less, k, p) <==>
              HasKeyPrefix(less, k, p[..|p| - 1]) && |k| >= |p| && IsEqual(less, k[|p| - 1], p[|p| - 1])
  {
    if |p| <= |k| {
      assert forall i :: 0 <= i < |p| - 1 ==> k[..|p|][i] == k[..|p| - 1][i] && p[i] == p[..|p| - 1][i];
    }
  }

  /** Equivalent keys reach the same value: the comparator, not the exact characters,
      decides which node a key designates. */
  lemma {:induction false} LookupRespectsEquiv(less: Less, e: Entry, a: seq<char>, b: seq<char>)
    requires StrictWeakOrder(less) && KeyEquiv(less, a, b)
    ensures LookupEntry(less, e, a) == LookupEntry(less, e, b)
    decreases |a|
  {
    if |a| > 0 {
      var es := Entries(e.child);
      IndexOfEquivalent(less, es, a[0], b[0]);
      match IndexOf(less, es, a[0]) {
        case None =>
        case Some(i) =>
          assert KeyEquiv(less, a[1..], b[1..]) by {
            forall m | 0 <= m < |a| - 1 ensures IsEqual(less, a[1..][m], b[1..][m]) {
              assert a[1..][m] == a[m + 1] && b[1..][m] == b[m + 1];
            }
          }
          LookupRespectsEquiv(less, es[i], a[1..], b[1..]);
      }
    }
  }

  /** In a sorted level, the entry equivalent to the first key character is the one the
      lookup descends into, wherever it sits. */
  lemma LookupInAt(less: Less, es: seq<Entry>, key: seq<char>, j: nat)
    requires StrictWeakOrder(less) && Sorted(less, es) && |key| > 0
    requires j < |es| && IsEqual(less, es[j].ch, key[0])
    ensures LookupIn(less, es, key) == LookupEntry(less, es[j], key[1..])
  {
    SortedIndexOf(less, es, key[0], j);
  }

  /** A level with no entry equivalent to the first key character stores nothing there. */
  lemma LookupInAbsent(less: Less, es: seq<Entry>, key: seq<char>)
    requires |key| > 0
    requires forall m :: 0 <= m < |es| ==> !IsEqual(less, es[m].ch, key[0])
    ensures LookupIn(less, es, key) == Undefined
  {
  }

  /** A node that has neither value nor child stores nothing under any key. */
  lemma LookupEmptyEntry(less: Less, c: char, key: seq<char>)
    ensures LookupEntry(less, Entry(c, Undefined, Nil), key) == Undefined
  {
  }

  /** Inserting a node with no value and no child, at a place that keeps the level
      sorted and where no equivalent entry existed, changes no stored value. */
  lemma InsertKeepsLookup(less: Less, es: seq<Entry>, p: nat, c: char, key: seq<char>)
    requires StrictWeakOrder(less) && p <= |es| && |key| > 0
    requires Sorted(less, Insert(es, p, Entry(c, Undefined, Nil)))
    requires IndexOf(less, es, c).None?
    ensures LookupIn(less, Insert(es, p, Entry(c, Undefined, Nil)), key) == LookupIn(less, es, key)
  {
    var x := key[0];
    if IndexOf(less, es, x).Some? {
      InsertKeepsFound(less, es, p, Entry(c, Undefined, Nil), key);
    } else {
      InsertKeepsMissing(less, es, p, c, key);
    }
  }

  lemma InsertKeepsFound(less: Less, es: seq<Entry>, p: nat, e: Entry, key: seq<char>)
    requires StrictWeakOrder(less) && p <= |es| && |key| > 0
    requires Sorted(less, Insert(es, p, e))
    requires IndexOf(less, es, key[0]).Some?
    ensures LookupIn(less, Insert(es, p, e), key) == LookupIn(less, es, key)
  {
    var fs := Insert(es, p, e);
    InsertAt(es, p, e);
    var j := IndexOf(less, es, key[0]).value;
    var j' := if j < p then j else j + 1;
    assert fs[j'] == es[j];
    LookupInAt(less, fs, key, j');
  }

  lemma InsertKeepsMissing(less: Less, es: seq<Entry>, p: nat, c: char, key: seq<char>)
    requires p <= |es| && |key| > 0
    requires IndexOf(less, es, key[0]).None?
    ensures LookupIn(less, Insert(es, p, Entry(c, Undefined, Nil)), key) == Undefined
  {
    var fs := Insert(es, p, Entry(c, Undefined, Nil));
    InsertAt(es, p, Entry(c, Undefined, Nil));
    var q := IndexOf(less, fs, key[0]);
    if q.Some? {
      var m := q.value;
      assert m == p;
      LookupEmptyEntry(less, c, key[1..]);
    }
  }

  lemma InsertAt(es: seq<Entry>, p: nat, e: Entry)
    requires p <= |es|
    ensures |Insert(es, p, e)| == |es| + 1 && Insert(es, p, e)[p] == e
    ensures forall m :: 0 <= m < p ==> Insert(es, p, e)[m] == es[m]
    ensures forall m :: p < m <= |es| ==> Insert(es, p, e)[m] == es[m - 1]
  {
  }

  /** Unlinking the (only) entry equivalent to `c` from a sorted level empties the keys
      that start with `c` and keeps every other stored value. */
  lemma RemoveKeepsLookup(less: Less, es: seq<Entry>, c: char, j: nat, key: seq<char>)
    requires StrictWeakOrder(less) && Sorted(less, es) && |key| > 0
    requires IndexOf(less, es, c) == Some(j)
    ensures LookupIn(less, es[..j] + es[j + 1..], key) ==
              if IsEqual(less, key[0], c) then Undefined else LookupIn(less, es, key)
  {
    var x := key[0];
    if IsEqual(less, x, c) {
      RemoveEquivalent(less, es, c, j, key);
    } else if IndexOf(less, es, x).None? {
      RemoveAbsent(less, es, j, key);
    } else {
      RemoveOther(less, es, c, j, key);
    }
  }

  /** The entries after an unlinked one move down by one place. */
  lemma RemovedAt(es: seq<Entry>, j: nat, m: nat)
    requires j < |es| && m < |es| - 1
    ensures (es[..j] + es[j + 1..])[m] == es[if m < j then m else m + 1]
  {
  }

  lemma RemoveEquivalent(less: Less, es: seq<Entry>, c: char, j: nat, key: seq<char>)
    requires StrictWeakOrder(less) && Sorted(less, es) && |key| > 0
    requires IndexOf(less, es, c) == Some(j) && IsEqual(less, key[0], c)
    ensures LookupIn(less, es[..j] + es[j + 1..], key) == Undefined
  {
    var fs := es[..j] + es[j + 1..];
    var x := key[0];
    forall m | 0 <= m < |fs| ensures !IsEqual(less, fs[m].ch, x) {
      RemovedEquivalent(less, es, c, j, x, m);
    }
    LookupInAbsent(less, fs, key);
  }

  /** No entry left after unlinking the one equivalent to `c` is equivalent to `c`. */
  lemma RemovedEquivalent(less: Less, es: seq<Entry>, c: char, j: nat, x: char, m: nat)
    requires StrictWeakOrder(less) && Sorted(less, es) && IndexOf(less, es, c) == Some(j)
    requires IsEqual(less, x, c) && m < |es| - 1
    ensures !IsEqual(less, (es[..j] + es[j + 1..])[m].ch, x)
  {
    var m' := if m < j then m else m + 1;
    RemovedAt(es, j, m);
    if IsEqual(less, es[m'].ch, x) {
      CharOrder.StrictWeakOrderWrappers(less, es[m'].ch, x, c);
      SortedIndexOf(less, es, c, m');
    }
  }

  lemma RemoveAbsent(less: Less, es: seq<Entry>, j: nat, key: seq<char>)
    requires |key| > 0 && j < |es| && IndexOf(less, es, key[0]).None?
    ensures LookupIn(less, es[..j] + es[j + 1..], key) == LookupIn(less, es, key)
  {
    var fs := es[..j] + es[j + 1..];
    forall m | 0 <= m < |fs| ensures !IsEqual(less, fs[m].ch, key[0]) {
      RemovedAt(es, j, m);
    }
    LookupInAbsent(less, fs, key);
  }

  lemma RemoveOther(less: Less, es: seq<Entry>, c: char, j: nat, key: seq<char>)
    requires StrictWeakOrder(less) && Sorted(less, es) && |key| > 0
    requires IndexOf(less, es, c) == Some(j) && !IsEqual(less, key[0], c) && IndexOf(less, es, key[0]).Some?
    ensures LookupIn(less, es[..j] + es[j + 1..], key) == LookupIn(less, es, key)
  {
    var fs := es[..j] + es[j + 1..];
    var x := key[0];
    var m := IndexOf(less, es, x).value;
    if m == j {
      CharOrder.StrictWeakOrderWrappers(less, x, es[j].ch, c);
      CharOrder.StrictWeakOrderWrappers(less, es[j].ch, x, x);
    }
    RemoveSorted(less, es, j);
    var m' := if m < j then m else m - 1;
    RemovedAt(es, j, m');
    LookupInAt(less, fs, key, m');
  }

  /** Replacing one entry by another with the same character only affects the keys that
      descend into that entry. */
  lemma ReplaceKeepsLookup(less: Less, es: seq<Entry>, i: nat, e: Entry, key: seq<char>)
    requires StrictWeakOrder(less) && i < |es| && e.ch == es[i].ch && |key| > 0
    requires !IsEqual(less, key[0], es[i].ch)
    ensures LookupIn(less, es[i := e], key) == LookupIn(less, es, key)
  {
    IndexOfSameChars(less, es, es[i := e], key[0]);
    if IndexOf(less, es, key[0]) == Some(i) {
      assert false;
    }
  }
}
