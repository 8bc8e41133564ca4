/** `Trie` (CharTrie/TrieData.h): the public operations on top of the walk. Each
    operation that may change the tree returns the trie as it is afterwards: `find` and
    `lower_bound` walk with `intGetNode`, which creates the root on first use and may
    relabel a chain head, so even they can change the structure (never the contents). */
module Tries {
  import opened Options
  import opened CharOrder
  import opened Nodes
  import opened Contents
  import opened Walks
  import opened Iterators
  import opened Removals
  import K = KeyStrings

  /** What every trie the operations build satisfies: a null root, or a root that holds
      the NUL character, has no siblings, and whose chains are all ascending. */
  ghost predicate Valid(less: Less, t: Trie) {
    t.root.Nil? || (t.root.ch == RootChar && t.root.next.Nil? && WellFormed(less, t.root))
  }

  /** `intGetRoot` (lines 669-676): the root, created on first use. */
  function GetRoot(t: Trie): (r: Trie)
    ensures r.root.Node?
  {
    if t.root.Nil? then Trie(Blank) else t
  }

  /** Creating the root stores nothing and keeps the trie valid. */
  lemma GetRootKeepsContents(less: Less, t: Trie)
    requires Valid(less, t)
    ensures Valid(less, GetRoot(t)) && GetRoot(t).root.ch == RootChar
    ensures forall k :: Value(less, GetRoot(t), k) == Value(less, t, k)
  {
    forall k ensures Value(less, GetRoot(t), k) == Value(less, t, k) {
      if t.root.Nil? && |k| > 0 {
        assert Entries(Blank.child) == [];
        assert IndexOf(less, Entries(Blank.child), k[0]).None?;
        assert Lookup(less, Blank, k) == LookupIn(less, Entries(Blank.child), k);
      }
    }
  }

  /** `intResetRoot` (lines 680-685): drop the whole tree. */
  function ResetRoot(t: Trie): (r: Trie)
    ensures r.root.Nil?
  {
    Trie(Nil)
  }

  /** After `intResetRoot` nothing is stored. */
  lemma ResetRootEmpties(less: Less, t: Trie)
    ensures Valid(less, ResetRoot(t))
    ensures forall k :: Value(less, ResetRoot(t), k) == Undefined
  {
  }

  /** `intGetNode(key, keyLength, path, create)` (lines 705-746) from the root, with the
      caller's edit on the node it reaches. */
  function Walk(less: Less, t: Trie, key: seq<char>, create: bool, edit: Edit): (r: Located)
    ensures r.tree.Node?
    ensures |r.path| == 0 || |r.path| == |key| + 1
    ensures create ==> |r.path| > 0
  {
    GetNode(less, GetRoot(t).root, key, create, edit)
  }

  /** A walk with a non-structural edit from a valid trie, in terms of stored values. */
  lemma WalkContents(less: Less, t: Trie, key: seq<char>, create: bool, edit: Edit)
    requires StrictWeakOrder(less) && Valid(less, t) && !edit.Detach?
    ensures var r := Walk(less, t, key, create, edit);
            && Valid(less, Trie(r.tree))
            && (forall k :: Value(less, Trie(r.tree), k) ==
                  if |r.path| > 0 && HasKeyPrefix(less, k, key)
                  then EditEffect(less, edit, k[|key|..], Value(less, t, k))
                  else Value(less, t, k))
            && (|r.path| > 0 ==> r.path[|r.path| - 1].value == Value(less, Trie(r.tree), key))
            && (|r.path| == 0 ==> forall k :: HasKeyPrefix(less, k, key) ==> Value(less, t, k) == Undefined)
  {
    var root := GetRoot(t).root;
    GetRootKeepsContents(less, t);
    ContentsDescribed(less, root, key, create, edit);
    WalkValues(less, t, root, key, edit, Walk(less, t, key, create, edit));
  }

  /** `GetNodeContents` from the root, read as the values of the trie. */
  lemma WalkValues(less: Less, t: Trie, root: Tree, key: seq<char>, edit: Edit, r: Located)
    requires root.Node? && root.ch == RootChar && root.next.Nil? && !edit.Detach?
    requires forall k :: Value(less, Trie(root), k) == Value(less, t, k)
    requires r.tree.Node? && r.tree.ch == root.ch && r.tree.next == root.next
    requires forall m :: 0 <= m < |r.path| ==> r.path[m].Node?
    requires Describes(less, root, key, edit, r)
    ensures && Valid(less, Trie(r.tree))
            && (forall k :: Value(less, Trie(r.tree), k) ==
                  if |r.path| > 0 && HasKeyPrefix(less, k, key)
                  then EditEffect(less, edit, k[|key|..], Value(less, t, k))
                  else Value(less, t, k))
            && (|r.path| > 0 ==> r.path[|r.path| - 1].value == Value(less, Trie(r.tree), key))
            && (|r.path| == 0 ==> forall k :: HasKeyPrefix(less, k, key) ==> Value(less, t, k) == Undefined)
  {
    forall k ensures Value(less, t, k) == Lookup(less, root, k) {
      assert Value(less, Trie(root), k) == Lookup(less, root, k);
    }
  }

  // ---------------------------------------------------------------------------------
  // addKeyValue

  /** The trie after `addKeyValue` and the node pointer it returns. */
  datatype Added = Added(trie: Trie, node: Tree)

  /** `addKeyValue(key, value)` (lines 558-573): walk the whole key creating what is
      missing (so the walk always resolves) and set the value of the node reached. */
  function AddKeyValue(less: Less, t: Trie, key: K.StringOfChars, v: int): (r: Added)
    requires K.Valid(key)
    ensures r.node.Node? && r.node.value == v
    ensures r.trie.root.Node?
  {
    var s := K.Chars(key);
    var w := Walk(less, t, s, true, SetValue(v));
    SetValueReached(less, GetRoot(t).root, s, v);
    Added(Trie(w.tree), w.path[|w.path| - 1])
  }

  /** A creating walk that sets a value ends at a node holding that value. */
  lemma SetValueReached(less: Less, root: Tree, s: seq<char>, v: int)
    requires root.Node?
    ensures var w := GetNode(less, root, s, true, SetValue(v));
            |w.path| > 0 && w.path[|w.path| - 1].Node? && w.path[|w.path| - 1].value == v
  {
    GetNodeFusion(less, root, s, true, SetValue(v));
  }

  /** After `addKeyValue(key, v)` the trie maps every key equivalent to `key` to `v` (a
      repeated insert overwrites) and every other key to what it mapped to before. */
  lemma AddKeyValueContents(less: Less, t: Trie, key: K.StringOfChars, v: int)
    requires StrictWeakOrder(less) && Valid(less, t) && K.Valid(key)
    ensures var r := AddKeyValue(less, t, key, v);
            && Valid(less, r.trie)
            && forall k :: Value(less, r.trie, k) ==
                 if KeyEquiv(less, k, K.Chars(key)) then v else Value(less, t, k)
  {
    var s := K.Chars(key);
    WalkContents(less, t, s, true, SetValue(v));
    forall k ensures HasKeyPrefix(less, k, s) && |k[|s|..]| == 0 <==> KeyEquiv(less, k, s) {
      HasKeyPrefixFull(less, k, s);
    }
  }

  // ---------------------------------------------------------------------------------
  // find

  /** The trie after `find` and the value it returns. */
  datatype Found = Found(trie: Trie, value: int)

  /** `find(key)` (lines 609-619): walk the whole key without creating; the value of the
      node reached, or the undefined value when the key does not resolve. */
  function Find(less: Less, t: Trie, key: K.StringOfChars): (r: Found)
    requires K.Valid(key)
  {
    var w := Walk(less, t, K.Chars(key), false, Keep);
    Found(Trie(w.tree), if |w.path| == 0 then Undefined else w.path[|w.path| - 1].value)
  }

  /** `find` returns exactly the value stored under the key, and stores nothing new. */
  lemma FindContents(less: Less, t: Trie, key: K.StringOfChars)
    requires StrictWeakOrder(less) && Valid(less, t) && K.Valid(key)
    ensures var r := Find(less, t, key);
            && r.value == Value(less, t, K.Chars(key))
            && Valid(less, r.trie)
            && forall k :: Value(less, r.trie, k) == Value(less, t, k)
  {
    var s := K.Chars(key);
    WalkContents(less, t, s, false, Keep);
    var w := Walk(less, t, s, false, Keep);
    assert HasKeyPrefix(less, s, s);
  }

  /** The round trip the interface promises: `find` after `addKeyValue` returns the value
      added under any equivalent key, and leaves other keys as they were. */
  lemma AddThenFind(less: Less, t: Trie, key: K.StringOfChars, v: int, other: K.StringOfChars)
    requires StrictWeakOrder(less) && Valid(less, t) && K.Valid(key) && K.Valid(other)
    ensures var a := AddKeyValue(less, t, key, v);
            Find(less, a.trie, other).value ==
              if KeyEquiv(less, K.Chars(other), K.Chars(key)) then v else Find(less, t, other).value
  {
    AddKeyValueContents(less, t, key, v);
    FindContents(less, AddKeyValue(less, t, key, v).trie, other);
    FindContents(less, t, other);
  }

  // ---------------------------------------------------------------------------------
  // removeKey

  /** The trie after `removeKey` and the `bool` it returns. */
  datatype Removed = Removed(trie: Trie, done: bool)

  /** `removeKey(key)` (lines 576-606) as written: the empty key drops the whole tree;
      otherwise walk all but the last character without creating and call
      `removeBrother(last character)` on the node reached; the result says whether it
      detached a node. */
  function RemoveKey(less: Less, t: Trie, key: K.StringOfChars): (r: Removed)
    requires K.Valid(key)
  {
    var s := K.Chars(key);
    if |s| == 0 then Removed(ResetRoot(t), true)
    else
      var w := Walk(less, t, s[..|s| - 1], false, Detach(s[|s| - 1]));
      Removed(Trie(w.tree), w.detached.Some?)
  }

  /** When `removeKey` succeeds, in terms of the node `find` reaches for the key without
      its last character: that node's first child, or one of that node's own next
      siblings, is equivalent to the last character. The key's own node (a later child)
      is never looked at. */
  lemma RemoveKeyOutcome(less: Less, t: Trie, key: K.StringOfChars)
    requires K.Valid(key)
    ensures var s := K.Chars(key);
            var r := RemoveKey(less, t, key);
            && (|s| == 0 ==> r.done && forall k :: Value(less, r.trie, k) == Undefined)
            && (|s| > 0 ==>
                  var w := Walk(less, t, s[..|s| - 1], false, Keep);
                  var c := s[|s| - 1];
                  (r.done <==>
                     && |w.path| > 0
                     && var n := w.path[|w.path| - 1];
                     || (n.child.Node? && IsEqual(less, n.child.ch, c))
                     || IndexOf(less, Entries(n.next), c).Some?))
  {
    var s := K.Chars(key);
    if |s| == 0 {
      ResetRootEmpties(less, t);
    } else {
      var p, c := s[..|s| - 1], s[|s| - 1];
      var r := Walk(less, t, p, false, Detach(c));
      var w := Walk(less, t, p, false, Keep);
      GetNodeFusion(less, GetRoot(t).root, p, false, Detach(c));
      DetachedWhen(less, c, r, w);
      assert RemoveKey(less, t, key).done == r.detached.Some?;
    }
  }

  /** A detaching walk fused with the plain walk detaches exactly when `removeBrother`
      finds the character at the plain walk's end. */
  lemma DetachedWhen(less: Less, c: char, r: Located, w: Located)
    requires Fused(less, Detach(c), r, w)
    requires |r.path| == 0 ==> r.detached.None?
    ensures r.detached.Some? <==>
              && |w.path| > 0
              && var n := w.path[|w.path| - 1];
              || (n.child.Node? && IsEqual(less, n.child.ch, c))
              || IndexOf(less, Entries(n.next), c).Some?
  {
    if |w.path| > 0 {
      DetachOutcome(less, w.path[|w.path| - 1], c);
    }
  }

  /** When `removeBrother(c)` on `n` detaches something. */
  lemma DetachOutcome(less: Less, n: Tree, c: char)
    requires n.Node?
    ensures Apply(less, n, Detach(c)).removed.Some? <==>
              (n.child.Node? && IsEqual(less, n.child.ch, c)) || IndexOf(less, Entries(n.next), c).Some?
  {
  }

  /** What `removeKey` as written does to the stored values, with `p` the key without
      its last character `c` and `w` the plain walk to `p`. When the node for `p` has a
      first child equivalent to `c`, `removeBrother` takes its first branch there and
      values change as `HeadRemoved` says: the key itself and the keys below it read what
      the keys through `p`'s later siblings stored, and the keys through `p`'s next
      sibling are lost. Otherwise exactly the keys through the removed sibling of `p`'s
      node (equivalent to `c`) lose their values. Either way the trie stays valid and
      nothing outside the parent of `p` changes. */
  lemma RemoveKeyContents(less: Less, t: Trie, key: K.StringOfChars)
    requires StrictWeakOrder(less) && Valid(less, t) && K.Valid(key)
    ensures var s := K.Chars(key);
            var r := RemoveKey(less, t, key);
            && Valid(less, r.trie)
            && (|s| > 1 ==> forall k :: !HasKeyPrefix(less, k, s[..|s| - 2]) ==> Value(less, r.trie, k) == Value(less, t, k))
            && (|s| > 0 ==>
                  var p := s[..|s| - 1];
                  var c := s[|s| - 1];
                  var w := Walk(less, t, p, false, Keep);
                  && (|w.path| > 0 && HeadMatches(less, w.path[|w.path| - 1], c) ==>
                        forall k :: Value(less, r.trie, k) == HeadRemoved(less, t, p, w.path[|w.path| - 1].next, k))
                  && (!(|w.path| > 0 && HeadMatches(less, w.path[|w.path| - 1], c)) ==>
                        forall k :: Value(less, r.trie, k) ==
                          if r.done && |p| > 0 && HasKeyPrefix(less, k, p[..|p| - 1] + [c]) then Undefined
                          else Value(less, t, k)))
  {
    var s := K.Chars(key);
    if |s| == 0 {
      ResetRootEmpties(less, t);
    } else {
      var p, c := s[..|s| - 1], s[|s| - 1];
      RemoveLast(less, t, p, c);
      if |s| > 1 {
        assert s[..|s| - 2] == p[..|p| - 1];
      }
    }
  }

  /** `RemoveKeyContents` for the non-empty key `p + [c]`, in terms of the walk. */
  lemma RemoveLast(less: Less, t: Trie, p: seq<char>, c: char)
    requires StrictWeakOrder(less) && Valid(less, t)
    ensures var r := Walk(less, t, p, false, Detach(c));
            var w := Walk(less, t, p, false, Keep);
            && Valid(less, Trie(r.tree))
            && (|p| > 0 ==> forall k :: !HasKeyPrefix(less, k, p[..|p| - 1]) ==> Value(less, Trie(r.tree), k) == Value(less, t, k))
            && (|w.path| > 0 && HeadMatches(less, w.path[|w.path| - 1], c) ==>
                  forall k :: Value(less, Trie(r.tree), k) == HeadRemoved(less, t, p, w.path[|w.path| - 1].next, k))
            && (!(|w.path| > 0 && HeadMatches(less, w.path[|w.path| - 1], c)) ==>
                  forall k :: Value(less, Trie(r.tree), k) ==
                    if r.detached.Some? && |p| > 0 && HasKeyPrefix(less, k, p[..|p| - 1] + [c]) then Undefined
                    else Value(less, t, k))
  {
    if |p| == 0 {
      RemoveAtRoot(less, t, c);
    } else {
      RemoveBelowRoot(less, t, p, c);
      OutsideParent(less, t, p, c);
    }
  }

  /** `RemoveKeyContents` for a one-character key: `removeBrother` on the root. */
  lemma RemoveAtRoot(less: Less, t: Trie, c: char)
    requires StrictWeakOrder(less) && Valid(less, t)
    ensures var r := Walk(less, t, [], false, Detach(c));
            var w := Walk(less, t, [], false, Keep);
            && Valid(less, Trie(r.tree))
            && |w.path| > 0
            && (HeadMatches(less, w.path[|w.path| - 1], c) ==>
                  forall k :: Value(less, Trie(r.tree), k) == HeadRemoved(less, t, [], w.path[|w.path| - 1].next, k))
            && (!HeadMatches(less, w.path[|w.path| - 1], c) ==>
                  r.detached.None? && forall k :: Value(less, Trie(r.tree), k) == Value(less, t, k))
  {
    var root := GetRoot(t).root;
    GetRootKeepsContents(less, t);
    RootRemoval(less, root, c);
    HeadRemovedSameValues(less, Trie(root), t, [], root.next);
  }

  /** `RemoveKeyContents` for a key of two or more characters, from `RemovalValues`. */
  lemma RemoveBelowRoot(less: Less, t: Trie, p: seq<char>, c: char)
    requires StrictWeakOrder(less) && Valid(less, t) && |p| > 0
    ensures var r := Walk(less, t, p, false, Detach(c));
            var w := Walk(less, t, p, false, Keep);
            && Valid(less, Trie(r.tree))
            && (|w.path| > 0 && HeadMatches(less, w.path[|w.path| - 1], c) ==>
                  forall k :: Value(less, Trie(r.tree), k) == HeadRemoved(less, t, p, w.path[|w.path| - 1].next, k))
            && (!(|w.path| > 0 && HeadMatches(less, w.path[|w.path| - 1], c)) ==>
                  forall k :: Value(less, Trie(r.tree), k) ==
                    if r.detached.Some? && HasKeyPrefix(less, k, p[..|p| - 1] + [c]) then Undefined
                    else Value(less, t, k))
  {
    var root := GetRoot(t).root;
    GetRootKeepsContents(less, t);
    var w := Walk(less, t, p, false, Keep);
    WalkContents(less, t, p, false, Keep);
    assert forall k :: Value(less, Trie(w.tree), k) == Value(less, t, k);
    RemovalValues(less, root, p, c);
    if |w.path| > 0 {
      HeadRemovedSameValues(less, Trie(w.tree), t, p, w.path[|w.path| - 1].next);
    }
  }

  /** Whatever `removeKey` does below the root, keys that do not extend the key of the
      parent of the node for `p` keep their values. */
  lemma OutsideParent(less: Less, t: Trie, p: seq<char>, c: char)
    requires StrictWeakOrder(less) && Valid(less, t) && |p| > 0
    ensures var r := Walk(less, t, p, false, Detach(c));
            forall k :: !HasKeyPrefix(less, k, p[..|p| - 1]) ==> Value(less, Trie(r.tree), k) == Value(less, t, k)
  {
    var q := p[..|p| - 1];
    var w := Walk(less, t, p, false, Keep);
    RemoveBelowRoot(less, t, p, c);
    assert (q + [c])[..|q|] == q;
    forall k | !HasKeyPrefix(less, k, q)
      ensures Value(less, Trie(Walk(less, t, p, false, Detach(c)).tree), k) == Value(less, t, k)
    {
      HasKeyPrefixSplit(less, k, p);
      HasKeyPrefixSplit(less, k, q + [c]);
      if |w.path| > 0 && w.path[|w.path| - 1].next.Node? {
        var x := w.path[|w.path| - 1].next.ch;
        assert (q + [x])[..|q|] == q;
        HasKeyPrefixSplit(less, k, q + [x]);
      }
    }
  }

  /** `removeKey` as it is meant to work: detach the child of the node reached that is
      equivalent to the last character, with everything below it, and nothing else. */
  function RemoveKeyIntended(less: Less, t: Trie, key: K.StringOfChars): (r: Removed)
    requires K.Valid(key)
  {
    var s := K.Chars(key);
    if |s| == 0 then Removed(ResetRoot(t), true)
    else
      var w := Walk(less, t, s[..|s| - 1], false, DetachChild(s[|s| - 1]));
      Removed(Trie(w.tree), w.detached.Some?)
  }

  /** The intended removal erases exactly the keys that extend the removed key (up to
      equivalence), keeps the trie valid, and reports success exactly when there was a
      node for the key. */
  lemma RemoveKeyIntendedContents(less: Less, t: Trie, key: K.StringOfChars)
    requires StrictWeakOrder(less) && Valid(less, t) && K.Valid(key)
    ensures var s := K.Chars(key);
            var r := RemoveKeyIntended(less, t, key);
            && Valid(less, r.trie)
            && (forall k :: Value(less, r.trie, k) ==
                  if HasKeyPrefix(less, k, s) then Undefined else Value(less, t, k))
            && (|s| > 0 ==>
                  var w := Walk(less, t, s[..|s| - 1], false, Keep);
                  (r.done <==>
                     |w.path| > 0 && IndexOf(less, Entries(w.path[|w.path| - 1].child), s[|s| - 1]).Some?))
  {
    var s := K.Chars(key);
    if |s| > 0 {
      var p := s[..|s| - 1];
      var c := s[|s| - 1];
      assert s == p + [c];
      DetachChildValues(less, t, p, c);
      DetachChildDone(less, t, p, c);
    }
  }

  /** The values after detaching the child for `c` below the node of `p`. */
  lemma DetachChildValues(less: Less, t: Trie, p: seq<char>, c: char)
    requires StrictWeakOrder(less) && Valid(less, t)
    ensures var w := Walk(less, t, p, false, DetachChild(c));
            && Valid(less, Trie(w.tree))
            && forall k :: Value(less, Trie(w.tree), k) ==
                 if HasKeyPrefix(less, k, p + [c]) then Undefined else Value(less, t, k)
  {
    WalkContents(less, t, p, false, DetachChild(c));
    var w := Walk(less, t, p, false, DetachChild(c));
    forall k ensures Value(less, Trie(w.tree), k) ==
                     if HasKeyPrefix(less, k, p + [c]) then Undefined else Value(less, t, k) {
      HasKeyPrefixSplit(less, k, p + [c]);
      assert (p + [c])[..|p|] == p;
      if HasKeyPrefix(less, k, p) && |k| > |p| {
        assert k[|p|..][0] == k[|p|];
      }
    }
  }

  /** Detaching the child for `c` below the node of `p` succeeds exactly when `find`
      would reach that node and it has such a child. */
  lemma DetachChildDone(less: Less, t: Trie, p: seq<char>, c: char)
    ensures var w := Walk(less, t, p, false, DetachChild(c));
            var f := Walk(less, t, p, false, Keep);
            w.detached.Some? <==>
              |f.path| > 0 && IndexOf(less, Entries(f.path[|f.path| - 1].child), c).Some?
  {
    GetNodeFusion(less, GetRoot(t).root, p, false, DetachChild(c));
  }

  // ---------------------------------------------------------------------------------
  // Iteration

  /** The trie after `lower_bound` and the iterator it returns. */
  datatype Positioned = Positioned(trie: Trie, it: seq<LiveFrame>)

  /** `lower_bound(key)` (lines 622-627): the iterator over the node path of the whole
      key, walked without creating; the end iterator when the key does not resolve. Every
      frame is fresh, ancestors included. */
  function LowerBound(less: Less, t: Trie, key: K.StringOfChars): (r: Positioned)
    requires K.Valid(key)
  {
    var w := Walk(less, t, K.Chars(key), false, Keep);
    Positioned(Trie(w.tree), FromNodes(w.path))
  }

  /** The iterator `lower_bound` returns designates the node of the key: one frame per
      key character below the root, the value stored under the key at the top, all
      frames still due to enter their children; the end iterator only when nothing is
      stored under the key or any extension of it. */
  lemma LowerBoundPosition(less: Less, t: Trie, key: K.StringOfChars)
    requires StrictWeakOrder(less) && Valid(less, t) && K.Valid(key)
    ensures var s := K.Chars(key);
            var r := LowerBound(less, t, key);
            var u, p := r.trie, r.it;
            && Valid(less, u)
            && (forall k :: Value(less, u, k) == Value(less, t, k))
            && (|p| == 0 ==> forall k :: HasKeyPrefix(less, k, s) ==> Value(less, t, k) == Undefined)
            && (|p| > 0 ==> |p| == |s| + 1 && GetValue(p) == Value(less, t, s))
            && forall m :: 0 <= m < |p| ==> p[m].toChild
  {
    var s := K.Chars(key);
    WalkContents(less, t, s, false, Keep);
    assert HasKeyPrefix(less, s, s);
  }

  /** The frames `lower_bound` is meant to build: every ancestor has already entered its
      child chain (the path goes through it), only the node reached is still to be
      entered. */
  function PathFrames(nodes: seq<Tree>): (p: seq<LiveFrame>)
    requires forall m :: 0 <= m < |nodes| ==> nodes[m].Node?
    ensures |p| == |nodes|
    ensures forall m :: 0 <= m < |p| ==> p[m].node == nodes[m] && (p[m].toChild <==> m == |p| - 1)
  {
    if |nodes| == 0 then [] else Entered(nodes[..|nodes| - 1]) + [Frame(nodes[|nodes| - 1], true)]
  }

  /** Frames for nodes whose child chains have been entered. */
  function Entered(nodes: seq<Tree>): (p: seq<LiveFrame>)
    requires forall m :: 0 <= m < |nodes| ==> nodes[m].Node?
    ensures |p| == |nodes|
    ensures forall m :: 0 <= m < |p| ==> p[m].node == nodes[m] && !p[m].toChild
  {
    if |nodes| == 0 then [] else Entered(nodes[..|nodes| - 1]) + [Frame(nodes[|nodes| - 1], false)]
  }

  /** `lower_bound` with the intended frames. */
  function LowerBoundIntended(less: Less, t: Trie, key: K.StringOfChars): (r: Positioned)
    requires K.Valid(key)
  {
    var w := Walk(less, t, K.Chars(key), false, Keep);
    Positioned(Trie(w.tree), PathFrames(w.path))
  }

  /** Iterating from the intended `lower_bound` position lists the position itself and
      then exactly an end part of the trie's whole enumeration, in the order `cbegin()`
      lists it (after the root's own pair, which `cbegin()` skips): nothing is repeated
      and nothing after the position is skipped. */
  lemma LowerBoundIntendedTail(less: Less, t: Trie, key: K.StringOfChars)
    requires Valid(less, t) && K.Valid(key)
    ensures var r := LowerBoundIntended(less, t, key);
            var p := r.it;
            var all := Here([], r.trie.root.value) + RunIntended(CBeginIntended(r.trie));
            |p| > 0 ==>
              && RunIntended(p) == [Item(Key(p), GetValue(p))] + Pending(p)
              && IsSuffix(RunIntended(p)[1..], all)
              && (GetValue(p) != Undefined ==> IsSuffix(RunIntended(p), all))
  {
    var s := K.Chars(key);
    var root := GetRoot(t).root;
    var w := Walk(less, t, s, false, Keep);
    if |w.path| > 0 {
      GetNodeLinked(less, root, s, false, Keep);
      FramesTail(w.path, w.tree);
    }
  }

  /** `LowerBoundIntendedTail` for the frames of any path from the root. */
  lemma FramesTail(nodes: seq<Tree>, root: Tree)
    requires |nodes| > 0 && (forall m :: 0 <= m < |nodes| ==> nodes[m].Node?) && Linked(nodes)
    requires nodes[0] == root && root.ch == RootChar && root.next.Nil?
    ensures var p := PathFrames(nodes);
            var all := Here([], root.value) + RunIntended(CBeginIntended(Trie(root)));
            && RunIntended(p) == [Item(Key(p), GetValue(p))] + Pending(p)
            && IsSuffix(RunIntended(p)[1..], all)
            && (GetValue(p) != Undefined ==> IsSuffix(RunIntended(p), all))
  {
    var p := PathFrames(nodes);
    PathFramesTail(nodes);
    RunIntendedPending(p);
    EnumerateIntended(Trie(root));
    var all := Here([], root.value) + Items(root.child, []);
    assert Items(root, []) == all + Items(Nil, []);
    assert Items(root, []) == all;
    SuffixOfSuffix(AtTop(p), Pending(p), all);
  }

  /** `b` ends with `a`. */
  predicate IsSuffix(a: seq<Item>, b: seq<Item>) {
    |a| <= |b| && b[|b| - |a|..] == a
  }

  lemma SuffixOfSuffix(x: seq<Item>, a: seq<Item>, b: seq<Item>)
    requires IsSuffix(x + a, b)
    ensures IsSuffix(a, b)
  {
    assert b[|b| - |a|..] == (x + a)[|x|..];
  }

  /** What is still due from the intended frames for a path, from the node reached on:
      the end of the enumeration of the chain at the bottom of the path. */
  lemma {:induction false} PathFramesTail(nodes: seq<Tree>)
    requires |nodes| > 0 && (forall m :: 0 <= m < |nodes| ==> nodes[m].Node?) && Linked(nodes)
    ensures var p := PathFrames(nodes);
            IsSuffix(AtTop(p) + Pending(p), Items(nodes[0], []))
    decreases |nodes|
  {
    var n := |nodes|;
    if n == 1 {
      var f: LiveFrame := Frame(nodes[0], true);
      assert PathFrames(nodes) == [] + [f];
      Enter([], f);
    } else {
      var ns := nodes[..n - 1];
      var top := nodes[n - 1];
      LinkedPrefix(nodes);
      PathFramesTail(ns);
      assert ns[0] == nodes[0];
      PathTailStep(ns, top, Items(nodes[0], []));
    }
  }

  /** One more node on the path keeps what is due an end part of the enumeration. */
  lemma PathTailStep(ns: seq<Tree>, top: Tree, whole: seq<Item>)
    requires |ns| > 0 && (forall m :: 0 <= m < |ns| ==> ns[m].Node?) && top.Node?
    requires OnChain(ns[|ns| - 1].child, top)
    requires var q := PathFrames(ns); IsSuffix(AtTop(q) + Pending(q), whole)
    ensures var p := PathFrames(ns + [top]); IsSuffix(AtTop(p) + Pending(p), whole)
  {
    var q := PathFrames(ns);
    var p := PathFrames(ns + [top]);
    var x := PathTailSplit(ns, top);
    SuffixDrop(AtTop(q), Pending(q), x, AtTop(p) + Pending(p), whole);
  }

  /** What the parent's path still has due is a part of its chain before the new node,
      then what the longer path has due from the new node on. */
  lemma PathTailSplit(ns: seq<Tree>, top: Tree) returns (x: seq<Item>)
    requires |ns| > 0 && (forall m :: 0 <= m < |ns| ==> ns[m].Node?) && top.Node?
    requires OnChain(ns[|ns| - 1].child, top)
    ensures var p := PathFrames(ns + [top]); Pending(PathFrames(ns)) == x + (AtTop(p) + Pending(p))
  {
    x := PathBelow(ns, top);
    PathTop(ns, top);
  }

  lemma LinkedPrefix(nodes: seq<Tree>)
    requires |nodes| > 1 && (forall m :: 0 <= m < |nodes| ==> nodes[m].Node?) && Linked(nodes)
    ensures var ns := nodes[..|nodes| - 1];
            && nodes == ns + [nodes[|nodes| - 1]]
            && Linked(ns) && OnChain(ns[|ns| - 1].child, nodes[|nodes| - 1])
  {
    var ns := nodes[..|nodes| - 1];
    forall j | 0 <= j < |ns| - 1 ensures ns[j].Node? && OnChain(ns[j].child, ns[j + 1]) {
      assert ns[j] == nodes[j] && ns[j + 1] == nodes[j + 1];
    }
    assert nodes[|nodes| - 2] == ns[|ns| - 1];
  }

  /** Dropping the front of a suffix leaves a suffix. */
  lemma SuffixDrop(a: seq<Item>, pending: seq<Item>, b: seq<Item>, rest: seq<Item>, whole: seq<Item>)
    requires IsSuffix(a + pending, whole) && pending == b + rest
    ensures IsSuffix(rest, whole)
  {
    assert a + pending == (a + b) + rest;
    SuffixOfSuffix(a + b, rest, whole);
  }

  lemma Regroup4(b: seq<Item>, c: seq<Item>, d: seq<Item>, e: seq<Item>, whole: seq<Item>)
    requires whole == b + c + d + e
    ensures whole == b + (c + d + e)
  {
  }

  /** Below the node reached, the frames of the path are those of its parent's path,
      whose pending part runs through the chain holding the node. */
  lemma {:induction false} PathBelow(ns: seq<Tree>, top: Tree) returns (x: seq<Item>)
    requires |ns| > 0 && (forall m :: 0 <= m < |ns| ==> ns[m].Node?)
    requires OnChain(ns[|ns| - 1].child, top)
    ensures var q := PathFrames(ns);
            var e := Entered(ns[..|ns| - 1]);
            var last := ns[|ns| - 1];
            && x == ItemsBefore(last.child, top, Key(q))
            && Pending(q) == x + (Items(top, Key(q)) + Items(last.next, Key(e)) + Pending(e))
  {
    var q := PathFrames(ns);
    var e := Entered(ns[..|ns| - 1]);
    var last := ns[|ns| - 1];
    assert q[..|q| - 1] == e;
    ItemsSplit(last.child, top, Key(q));
    x := ItemsBefore(last.child, top, Key(q));
    Regroup4(x, Items(top, Key(q)), Items(last.next, Key(e)), Pending(e), Pending(q));
  }

  /** The frames of the path down to `top`: `top` itself, its child chain and the rest
      of its chain, then the rest of its parent's chain and whatever the lower frames
      still have due. */
  lemma {:induction false} PathTop(ns: seq<Tree>, top: Tree)
    requires |ns| > 0 && (forall m :: 0 <= m < |ns| ==> ns[m].Node?) && top.Node?
    ensures var p := PathFrames(ns + [top]);
            var e := Entered(ns[..|ns| - 1]);
            var last := ns[|ns| - 1];
            AtTop(p) + Pending(p) == Items(top, Key(PathFrames(ns))) + Items(last.next, Key(e)) + Pending(e)
  {
    var e := Entered(ns[..|ns| - 1]);
    var last: LiveFrame := Frame(ns[|ns| - 1], false);
    PathFramesPush(ns, top);
    assert Entered(ns) == e + [last];
    EnterEntered(e, last, Frame(top, true));
    KeySameNodes(Entered(ns), PathFrames(ns));
  }

  lemma {:induction false} EnterEntered(e: seq<LiveFrame>, last: LiveFrame, f: LiveFrame)
    requires !last.toChild && f.toChild
    ensures AtTop(e + [last] + [f]) + Pending(e + [last] + [f])
         == Items(f.node, Key(e + [last])) + Items(last.node.next, Key(e)) + Pending(e)
  {
    var below := e + [last];
    var x, y := Items(last.node.next, Key(e)), Pending(e);
    PendingPush(e, last);
    assert [] + x == x;
    assert Pending(below) == x + y;
    Enter(below, f);
    Regroup(Items(f.node, Key(below)), x, y, Pending(below), Items(f.node, Key(below)) + x);
  }

  lemma PathFramesPush(ns: seq<Tree>, top: Tree)
    requires (forall m :: 0 <= m < |ns| ==> ns[m].Node?) && top.Node?
    ensures PathFrames(ns + [top]) == Entered(ns) + [Frame(top, true)]
  {
    assert (ns + [top])[..|ns|] == ns;
  }

  /** `cbegin()` (lines 630-638): a fresh frame for the root, advanced once, so the root
      itself is never the first position. The source dereferences a null root here, so
      the root must exist. */
  function CBegin(t: Trie): (p: seq<LiveFrame>)
    requires t.root.Node?
  {
    Advance([Frame(t.root, true)])
  }

  /** `cbegin()` with the intended advance. */
  function CBeginIntended(t: Trie): (p: seq<LiveFrame>)
    requires t.root.Node?
  {
    AdvanceIntended([Frame(t.root, true)])
  }

  /** `cend()` (lines 641-646): the empty stack. */
  function CEnd(): (p: seq<LiveFrame>)
    ensures |p| == 0
  {
    []
  }

  lemma RootFrame(root: Tree)
    requires root.Node? && root.ch == RootChar && root.next.Nil?
    ensures Key([Frame(root, true)]) == []
    ensures Key(([] + [Frame(root, true)])[..0]) == []
  {
  }

  /** The loop `for (it = cbegin(); it != cend(); ++it)` with the intended advance lists
      `Items` of the root's children: each stored pair below the root once, in depth-first
      order. */
  lemma EnumerateIntended(t: Trie)
    requires t.root.Node? && t.root.ch == RootChar && t.root.next.Nil?
    ensures RunIntended(CBeginIntended(t)) == Items(t.root.child, [])
  {
    var p: seq<LiveFrame> := [Frame(t.root, true)];
    RunIntendedPending(p);
    PendingPush([], Frame(t.root, true));
    assert [] + [Frame(t.root, true)] == p;
  }

  /** The same loop with `operator++` as written: after the children of a node that holds
      a value the walk stops at that node again, and, when the root holds a value (the
      empty key was added) and has children, the root comes last. */
  lemma EnumerateAsWritten(t: Trie)
    requires t.root.Node? && t.root.ch == RootChar && t.root.next.Nil?
    ensures Run(CBegin(t)) ==
              ItemsAsWritten(t.root.child, []) + (if t.root.child.Node? then Here([], t.root.value) else [])
  {
    var top: LiveFrame := Frame(t.root, true);
    var p: seq<LiveFrame> := [top];
    RunPendingAsWritten(p);
    assert [] + [top] == p;
    PendingAsWrittenPush([], top);
    TopAsWrittenPush([], top);
  }
}
