/** What a full iteration of a trie lists, with the intended advance: every stored pair
    below the root exactly once, each with the value the trie stores under its key, in
    ascending key order. The keys must not contain NUL characters: `getString()` drops
    NULs, so a key holding one is listed under a shorter name. */
module Enumeration {
  import opened Options
  import opened CStrings
  import opened CharOrder
  import opened Nodes
  import opened Contents
  import opened Iterators
  import opened Tries

  /** No node of `t`, its siblings or its descendants carries the NUL character. */
  predicate NoNul(t: Tree)
    decreases t
  {
    t.Nil? || (t.ch != Nul && NoNul(t.next) && NoNul(t.child))
  }

  /** The order of keys the sorted chains produce: character by character under the
      comparator, a proper prefix first. */
  predicate KeyLess(less: Less, a: seq<char>, b: seq<char>)
    decreases |a|
  {
    |b| > 0 && (|a| == 0 || less(a[0], b[0]) || (a[0] == b[0] && KeyLess(less, a[1..], b[1..])))
  }

  ghost predicate Ascending(less: Less, items: seq<Item>) {
    forall i, j :: 0 <= i < j < |items| ==> KeyLess(less, items[i].key, items[j].key)
  }

  /** Every key of `items` is `prefix` followed by at least one character. */
  predicate Below(items: seq<Item>, prefix: seq<char>) {
    forall i :: 0 <= i < |items| ==> |prefix| < |items[i].key| && items[i].key[..|prefix|] == prefix
  }

  // ---------------------------------------------------------------------------------
  // The key order

  lemma {:induction false} KeyLessPrefix(less: Less, a: seq<char>, b: seq<char>)
    requires |a| < |b| && b[..|a|] == a
    ensures KeyLess(less, a, b)
    decreases |a|
  {
    if |a| > 0 {
      assert a[0] == b[0];
      assert b[1..][..|a| - 1] == a[1..];
      KeyLessPrefix(less, a[1..], b[1..]);
    }
  }

  lemma {:induction false} KeyLessAt(less: Less, a: seq<char>, b: seq<char>, p: seq<char>)
    requires |p| < |a| && |p| < |b| && a[..|p|] == p && b[..|p|] == p && less(a[|p|], b[|p|])
    ensures KeyLess(less, a, b)
    decreases |p|
  {
    if |p| > 0 {
      assert a[0] == p[0] == b[0];
      assert a[1..][..|p| - 1] == p[1..] && b[1..][..|p| - 1] == p[1..];
      KeyLessAt(less, a[1..], b[1..], p[1..]);
    }
  }

  /** Under a strict weak order no key comes before itself, so an ascending list holds
      every key once. */
  lemma {:induction false} KeyLessIrreflexive(less: Less, a: seq<char>)
    requires StrictWeakOrder(less)
    ensures !KeyLess(less, a, a)
    decreases |a|
  {
    if |a| > 0 {
      KeyLessIrreflexive(less, a[1..]);
    }
  }

  // ---------------------------------------------------------------------------------
  // Items of a chain

  /** The keys listed for a chain extend the chain's prefix by one of its characters. */
  lemma {:induction false} ItemsBelow(t: Tree, prefix: seq<char>)
    requires NoNul(t)
    ensures Below(Items(t, prefix), prefix)
    decreases t
  {
    if t.Node? {
      var k := prefix + [t.ch];
      assert Extend(prefix, t.ch) == k;
      ItemsBelow(t.child, k);
      ItemsBelow(t.next, prefix);
      var h, c, n := Here(k, t.value), Items(t.child, k), Items(t.next, prefix);
      var all := h + c + n;
      assert Items(t, prefix) == all;
      forall i | 0 <= i < |all| ensures |prefix| < |all[i].key| && all[i].key[..|prefix|] == prefix {
        if i < |h| {
          assert all[i].key == k;
        } else if i < |h| + |c| {
          assert all[i] == c[i - |h|];
          assert all[i].key[..|prefix|] == all[i].key[..|k|][..|prefix|];
        } else {
          assert all[i] == n[i - |h| - |c|];
        }
      }
    }
  }

  /** The character right after the prefix, in every key listed for a chain, is one of
      the chain's characters, so a bound below all of them bounds it too. */
  lemma {:induction false} ItemsAbove(less: Less, t: Tree, prefix: seq<char>, c: char)
    requires NoNul(t) && Above(less, c, t)
    ensures Below(Items(t, prefix), prefix)
    ensures forall i :: 0 <= i < |Items(t, prefix)| ==> less(c, Items(t, prefix)[i].key[|prefix|])
    decreases t
  {
    ItemsBelow(t, prefix);
    if t.Node? {
      var k := prefix + [t.ch];
      assert Extend(prefix, t.ch) == k;
      ItemsBelow(t.child, k);
      ItemsAbove(less, t.next, prefix, c);
      var h, ch, n := Here(k, t.value), Items(t.child, k), Items(t.next, prefix);
      var all := h + ch + n;
      assert Items(t, prefix) == all;
      forall i | 0 <= i < |all| ensures less(c, all[i].key[|prefix|]) {
        if i < |h| {
          assert all[i].key == k;
        } else if i < |h| + |ch| {
          assert all[i] == ch[i - |h|];
          assert all[i].key[|prefix|] == all[i].key[..|k|][|prefix|] == k[|prefix|];
        } else {
          assert all[i] == n[i - |h| - |ch|];
        }
      }
    }
  }

  lemma AscendingConcat(less: Less, a: seq<Item>, b: seq<Item>)
    requires Ascending(less, a) && Ascending(less, b)
    requires forall i, j :: 0 <= i < |a| && 0 <= j < |b| ==> KeyLess(less, a[i].key, b[j].key)
    ensures Ascending(less, a + b)
  {
    var ab := a + b;
    forall i, j | 0 <= i < j < |ab| ensures KeyLess(less, ab[i].key, ab[j].key) {
      if j < |a| {
        assert ab[i] == a[i] && ab[j] == a[j];
      } else if i < |a| {
        assert ab[i] == a[i] && ab[j] == b[j - |a|];
      } else {
        assert ab[i] == b[i - |a|] && ab[j] == b[j - |a|];
      }
    }
  }

  /** A well-formed chain lists its keys in ascending order: a node before its
      descendants, and everything below a node before its greater siblings. */
  lemma {:induction false} ItemsAscending(less: Less, t: Tree, prefix: seq<char>)
    requires WellFormed(less, t) && NoNul(t)
    ensures Ascending(less, Items(t, prefix))
    decreases t
  {
    if t.Node? {
      var k := prefix + [t.ch];
      assert Extend(prefix, t.ch) == k;
      var h, c, n := Here(k, t.value), Items(t.child, k), Items(t.next, prefix);
      assert Items(t, prefix) == h + c + n;
      ItemsAscending(less, t.child, k);
      ItemsAscending(less, t.next, prefix);
      ItemsBelow(t.child, k);
      ItemsAbove(less, t.next, prefix, t.ch);
      ItemsBelow(t.next, prefix);
      forall j | 0 <= j < |c| ensures KeyLess(less, k, c[j].key) {
        KeyLessPrefix(less, k, c[j].key);
      }
      AscendingConcat(less, h, c);
      var hc := h + c;
      forall i, j | 0 <= i < |hc| && 0 <= j < |n| ensures KeyLess(less, hc[i].key, n[j].key) {
        var a := hc[i].key;
        if i < |h| {
          assert a == k;
        } else {
          assert hc[i] == c[i - |h|];
          assert a[..|prefix|] == a[..|k|][..|prefix|];
        }
        assert a[|prefix|] == t.ch;
        KeyLessAt(less, a, n[j].key, prefix);
      }
      AscendingConcat(less, hc, n);
    }
  }

  /** The value looked up under a key below the chain `t`, when the key's first
      character orders after the chain's first node, is found further along the chain. */
  lemma LookupInSkip(less: Less, t: Tree, key: seq<char>)
    requires StrictWeakOrder(less) && t.Node? && |key| > 0 && less(t.ch, key[0])
    ensures LookupIn(less, Entries(t), key) == LookupIn(less, Entries(t.next), key)
  {
    var es := Entries(t);
    assert !IsEqual(less, es[0].ch, key[0]);
    assert es[1..] == Entries(t.next);
  }

  /** A key whose first character is the chain head's own is looked up in the head. */
  lemma LookupInHead(less: Less, t: Tree, key: seq<char>)
    requires t.Node? && |key| > 0 && key[0] == t.ch
    ensures LookupIn(less, Entries(t), key) == LookupEntry(less, EntryOf(t), key[1..])
  {
    assert Entries(t)[0] == EntryOf(t);
  }

  /** The three parts `Items` lists for a chain that starts with a node. */
  lemma ItemsNode(t: Tree, prefix: seq<char>)
    requires t.Node? && t.ch != Nul
    ensures Items(t, prefix) == Here(prefix + [t.ch], t.value) + Items(t.child, prefix + [t.ch]) + Items(t.next, prefix)
  {
    assert Extend(prefix, t.ch) == prefix + [t.ch];
  }

  /** Every pair listed for a chain is what a lookup below that chain finds under its
      key, and holds a value. */
  lemma {:induction false} ItemsSound(less: Less, t: Tree, prefix: seq<char>)
    requires StrictWeakOrder(less) && WellFormed(less, t) && NoNul(t)
    ensures Below(Items(t, prefix), prefix)
    ensures var items := Items(t, prefix);
            forall i :: 0 <= i < |items| ==>
              && items[i].value != Undefined
              && LookupIn(less, Entries(t), items[i].key[|prefix|..]) == items[i].value
    decreases t
  {
    ItemsBelow(t, prefix);
    if t.Node? {
      var k := prefix + [t.ch];
      ItemsNode(t, prefix);
      ItemsSound(less, t.child, k);
      ItemsSound(less, t.next, prefix);
      ItemsAbove(less, t.next, prefix, t.ch);
      var h, c, n := Here(k, t.value), Items(t.child, k), Items(t.next, prefix);
      var all := h + c + n;
      var es := Entries(t);
      forall i | 0 <= i < |all|
        ensures all[i].value != Undefined && LookupIn(less, es, all[i].key[|prefix|..]) == all[i].value
      {
        var key := all[i].key;
        if i < |h| {
          assert all[i] == Item(k, t.value);
          assert k[|prefix|..] == [t.ch];
          LookupInHead(less, t, key[|prefix|..]);
        } else if i < |h| + |c| {
          assert all[i] == c[i - |h|];
          SoundChild(less, t, prefix, key);
        } else {
          assert all[i] == n[i - |h| - |c|];
          LookupInSkip(less, t, key[|prefix|..]);
        }
      }
    }
  }

  lemma SoundChild(less: Less, t: Tree, prefix: seq<char>, key: seq<char>)
    requires t.Node? && |prefix| + 1 < |key| && key[..|prefix| + 1] == prefix + [t.ch]
    ensures LookupIn(less, Entries(t), key[|prefix|..]) == LookupIn(less, Entries(t.child), key[|prefix| + 1..])
  {
    assert key[|prefix|] == key[..|prefix| + 1][|prefix|];
    LookupInHead(less, t, key[|prefix|..]);
    assert key[|prefix|..][1..] == key[|prefix| + 1..];
  }

  /** `items[i]` is listed under `prefix` followed by a key equivalent to `key`, with the
      value `v`. */
  predicate ListedAt(less: Less, items: seq<Item>, i: nat, prefix: seq<char>, key: seq<char>, v: int) {
    && i < |items| && |prefix| <= |items[i].key|
    && KeyEquiv(less, items[i].key[|prefix|..], key)
    && items[i].value == v
  }

  /** Every key under which a lookup below the chain `t` finds a value is listed for the
      chain, under an equivalent key and with that value; `i` is its position. */
  lemma {:induction false} ItemsComplete(less: Less, t: Tree, prefix: seq<char>, key: seq<char>)
    returns (i: nat)
    requires NoNul(t) && |key| > 0 && LookupIn(less, Entries(t), key) != Undefined
    ensures ListedAt(less, Items(t, prefix), i, prefix, key, LookupIn(less, Entries(t), key))
    decreases t
  {
    var j := IndexOf(less, Entries(t), key[0]).value;
    var k := prefix + [t.ch];
    if j == 0 {
      FirstEntry(less, t, key);
      if |key| == 1 {
        i := 0;
        CompleteHere(less, t, prefix, key);
      } else {
        var m := ItemsComplete(less, t.child, k, key[1..]);
        i := CompleteChild(less, t, prefix, key, LookupIn(less, Entries(t), key), m);
      }
    } else {
      LaterEntry(less, t, key, j);
      var m := ItemsComplete(less, t.next, prefix, key);
      i := CompleteNext(less, t, prefix, key, LookupIn(less, Entries(t), key), m);
    }
  }

  /** A key whose first character is found at the first node is looked up in that node. */
  lemma FirstEntry(less: Less, t: Tree, key: seq<char>)
    requires t.Node? && |key| > 0 && IndexOf(less, Entries(t), key[0]) == Some(0)
    ensures IsEqual(less, t.ch, key[0])
    ensures LookupIn(less, Entries(t), key) ==
              if |key| == 1 then t.value else LookupIn(less, Entries(t.child), key[1..])
  {
    EntriesCons(t);
    assert Entries(t)[0] == EntryOf(t);
  }

  /** A key whose first character is found after the first node is looked up along the
      rest of the chain. */
  lemma LaterEntry(less: Less, t: Tree, key: seq<char>, j: nat)
    requires t.Node? && |key| > 0 && IndexOf(less, Entries(t), key[0]) == Some(j) && j > 0
    ensures LookupIn(less, Entries(t.next), key) == LookupIn(less, Entries(t), key)
  {
    var es := Entries(t);
    EntriesCons(t);
    assert es[1..] == Entries(t.next);
    assert IndexOf(less, Entries(t.next), key[0]) == Some(j - 1);
  }

  /** The pairs of the rest of the chain come after the node's own and its children's. */
  lemma CompleteNext(less: Less, t: Tree, prefix: seq<char>, key: seq<char>, v: int, m: nat) returns (i: nat)
    requires t.Node? && t.ch != Nul && ListedAt(less, Items(t.next, prefix), m, prefix, key, v)
    ensures ListedAt(less, Items(t, prefix), i, prefix, key, v)
  {
    var k := prefix + [t.ch];
    ItemsNode(t, prefix);
    var h, c, n := Here(k, t.value), Items(t.child, k), Items(t.next, prefix);
    i := |h| + |c| + m;
    assert (h + c + n)[i] == n[m];
  }

  lemma CompleteHere(less: Less, t: Tree, prefix: seq<char>, key: seq<char>)
    requires t.Node? && t.ch != Nul && |key| == 1 && IsEqual(less, t.ch, key[0]) && t.value != Undefined
    ensures ListedAt(less, Items(t, prefix), 0, prefix, key, t.value)
  {
    var k := prefix + [t.ch];
    ItemsNode(t, prefix);
    assert Items(t, prefix)[0] == Item(k, t.value);
    assert k[|prefix|..] == [t.ch];
  }

  /** The pairs below a node come right after the node's own pair. */
  lemma CompleteChild(less: Less, t: Tree, prefix: seq<char>, key: seq<char>, v: int, m: nat) returns (i: nat)
    requires t.Node? && t.ch != Nul && |key| > 1 && IsEqual(less, t.ch, key[0])
    requires NoNul(t.child) && ListedAt(less, Items(t.child, prefix + [t.ch]), m, prefix + [t.ch], key[1..], v)
    ensures ListedAt(less, Items(t, prefix), i, prefix, key, v)
  {
    var k := prefix + [t.ch];
    ItemsNode(t, prefix);
    var h, c := Here(k, t.value), Items(t.child, k);
    ItemsBelow(t.child, k);
    var a := c[m].key;
    i := |h| + m;
    assert (h + c + Items(t.next, prefix))[i] == c[m];
    assert a[|prefix|..] == [t.ch] + a[|k|..] by {
      assert a[|prefix|] == a[..|k|][|prefix|];
    }
  }

  // ---------------------------------------------------------------------------------
  // The whole trie

  /** `for (it = cbegin(); it != cend(); ++it)` with the intended advance lists, in
      ascending key order and each once, exactly the non-empty keys the trie stores a
      value under, each with that value. */
  lemma EnumerationContents(less: Less, t: Trie)
    requires StrictWeakOrder(less) && Valid(less, t) && t.root.Node? && NoNul(t.root.child)
    ensures var items := RunIntended(CBeginIntended(t));
            && Ascending(less, items)
            && (forall i, j :: 0 <= i < j < |items| ==> items[i].key != items[j].key)
            && (forall i :: 0 <= i < |items| ==>
                  items[i].value != Undefined && Value(less, t, items[i].key) == items[i].value)
            && (forall key :: |key| > 0 && Value(less, t, key) != Undefined ==>
                  exists i :: 0 <= i < |items| && KeyEquiv(less, items[i].key, key)
                              && items[i].value == Value(less, t, key))
  {
    var root := t.root;
    var items := Items(root.child, []);
    EnumerateIntended(t);
    WellFormedLevel(less, root);
    ItemsAscending(less, root.child, []);
    ItemsSound(less, root.child, []);
    ItemsBelow(root.child, []);
    forall i, j | 0 <= i < j < |items| ensures items[i].key != items[j].key {
      KeyLessIrreflexive(less, items[i].key);
    }
    forall i | 0 <= i < |items| ensures Value(less, t, items[i].key) == items[i].value {
      assert items[i].key[0..] == items[i].key;
    }
    forall key | |key| > 0 && Value(less, t, key) != Undefined
      ensures exists i :: 0 <= i < |items| && KeyEquiv(less, items[i].key, key)
                          && items[i].value == Value(less, t, key)
    {
      var i := ItemsComplete(less, root.child, [], key);
      assert items[i].key[0..] == items[i].key;
    }
  }
}
