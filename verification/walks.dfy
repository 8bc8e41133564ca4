/** `Trie::intGetNode` (CharTrie/TrieData.h:705-746): the walk from a node down the path
    of a key, creating what is missing when asked to, fused with what its caller then
    does through the pointer to the node it reaches. */
module Walks {
  import opened Options
  import opened CharOrder
  import opened Nodes
  import opened Contents

  /** What the caller does with the node the walk reaches: nothing (`find`,
      `lower_bound`), `setValue` (`addKeyValue`), `removeBrother` (`removeKey`), or the
      removal of the matching child, which is what `removeKey` is meant to do. */
  datatype Edit = Keep | SetValue(v: int) | Detach(c: char) | DetachChild(c: char)

  datatype Applied = Applied(node: Tree, removed: Option<Tree>)

  /** The edit performed on the reached node `n`. */
  function Apply(less: Less, n: Tree, edit: Edit): (r: Applied)
    requires n.Node?
    ensures r.node.Node? && r.node.ch == n.ch
    ensures !edit.Detach? ==> r.node.next == n.next
    ensures edit.Keep? ==> r == Applied(n, None)
    ensures edit.SetValue? ==> r.node.value == edit.v && r.node.child == n.child && r.removed.None?
    ensures edit.DetachChild? ==>
              && r.node.value == n.value
              && (match IndexOf(less, Entries(n.child), edit.c)
                  case None => r == Applied(n, None)
                  case Some(j) =>
                    && Entries(r.node.child) == Entries(n.child)[..j] + Entries(n.child)[j + 1..]
                    && r.removed == Some(Sibling(n.child, j).(next := Nil)))
  {
    match edit
    case Keep => Applied(n, None)
    case SetValue(v) => Applied(n.(value := v), None)
    case Detach(c) =>
      var d := RemoveBrother(less, n, c);
      Applied(d.node, d.removed)
    case DetachChild(c) =>
      var u := Unlink(less, n.child, c);
      Applied(n.(child := u.node), u.removed)
  }

  /** The result of the walk: the start node as it now is, the path (the node values
      from the start node down to the reached node, as they are once the walk and the
      edit are done; empty when the key did not resolve), and what the edit detached. */
  datatype Located = Located(tree: Tree, path: seq<Tree>, detached: Option<Tree>)

  /** The first two steps of one round of the loop of `intGetNode` at `cur`: `getChild`
      (relabelling a child it just created with the key character), then `getBrother`
      on that child chain. `node` is `cur` as it now is, `chain` its child chain, and
      `found` the index in that chain of the node to go on from. */
  datatype Level = Level(node: Tree, chain: Tree, found: Option<nat>, created: bool)

  function Prepare(less: Less, cur: Tree, c: char, create: bool): (l: Level)
    requires cur.Node?
    ensures l.node.Node? && l.node.ch == cur.ch && l.node.value == cur.value && l.node.next == cur.next
    ensures l.found.Some? ==> l.found.value < |Entries(l.chain)|
  {
    var g := GetChild(cur, create);
    if g.child.Nil? then Level(g.node, Nil, None, false)
    else
      var head := if g.created then g.child.(ch := c) else g.child;
      var b := GetBrother(less, head, c, create);
      Level(g.node, b.chain, b.found, b.created)
  }

  /** The node the round goes on from, relabelled when `getBrother` created it. */
  function Target(l: Level, c: char): (n: Option<Tree>)
    requires l.found.Some? ==> l.found.value < |Entries(l.chain)|
    ensures n.Some? ==> n.value.Node?
  {
    match l.found
    case None => None
    case Some(i) =>
      var n := Sibling(l.chain, i);
      Some(if l.created then n.(ch := c) else n)
  }

  /** The loop of `intGetNode` from `cur` over the remaining key characters: descend to
      the child chain (creating a default child and relabelling it when asked to), find
      or create the sibling for the character, and go on from there; a missing child or
      sibling clears the path. When all characters are consumed the edit is applied. */
  function GetNode(less: Less, cur: Tree, key: seq<char>, create: bool, edit: Edit): (r: Located)
    requires cur.Node?
    ensures r.tree.Node? && r.tree.ch == cur.ch
    ensures |key| > 0 ==> r.tree.value == cur.value && r.tree.next == cur.next
    ensures !edit.Detach? ==> r.tree.next == cur.next
    ensures |r.path| == 0 || (|r.path| == |key| + 1 && r.path[0] == r.tree)
    ensures forall m :: 0 <= m < |r.path| ==> r.path[m].Node?
    ensures create ==> |r.path| > 0
    ensures |r.path| == 0 ==> r.detached.None?
    decreases |key|
  {
    if |key| == 0 then
      var a := Apply(less, cur, edit);
      Located(a.node, [a.node], a.removed)
    else
      var c := key[0];
      var l := Prepare(less, cur, c, create);
      match Target(l, c)
      case None =>
        Located(l.node.(child := l.chain), [], None)
      case Some(n1) =>
        var sub := GetNode(less, n1, key[1..], create, edit);
        var node := l.node.(child := PutSibling(l.chain, l.found.value, sub.tree));
        Located(node, if |sub.path| == 0 then [] else [node] + sub.path, sub.detached)
  }

  /** How a non-structural edit at the node for a key changes the value stored under a
      key that extends it by `rest`, given the value `before` stored there until then. */
  function EditEffect(less: Less, edit: Edit, rest: seq<char>, before: int): int
    requires !edit.Detach?
  {
    match edit
    case Keep => before
    case SetValue(v) => if |rest| == 0 then v else before
    case DetachChild(c) => if |rest| > 0 && IsEqual(less, rest[0], c) then Undefined else before
  }

  /** The edit at the reached node: the tree stays well formed and stored values change
      exactly as `EditEffect` says. */
  lemma ApplyContents(less: Less, n: Tree, edit: Edit)
    requires StrictWeakOrder(less) && n.Node? && WellFormed(less, n) && !edit.Detach?
    ensures var a := Apply(less, n, edit);
            && WellFormed(less, a.node)
            && forall k :: Lookup(less, a.node, k) == EditEffect(less, edit, k, Lookup(less, n, k))
  {
    if edit.DetachChild? {
      DetachChildContents(less, n, edit.c);
    } else if edit.SetValue? {
      var a := Apply(less, n, edit);
      assert forall k :: |k| > 0 ==> Lookup(less, a.node, k) == Lookup(less, n, k);
    }
  }

  lemma DetachChildContents(less: Less, n: Tree, c: char)
    requires StrictWeakOrder(less) && n.Node? && WellFormed(less, n)
    ensures var a := Apply(less, n, DetachChild(c));
            && WellFormed(less, a.node)
            && forall k :: Lookup(less, a.node, k) == EditEffect(less, DetachChild(c), k, Lookup(less, n, k))
  {
    var u := Unlink(less, n.child, c);
    assert Apply(less, n, DetachChild(c)).node == n.(child := u.node);
    forall k ensures Lookup(less, n.(child := u.node), k) == EditEffect(less, DetachChild(c), k, Lookup(less, n, k)) {
      if |k| > 0 {
        UnlinkLookup(less, n.child, c, k);
      }
    }
    UnlinkWellFormed(less, n.child, c);
  }

  lemma UnlinkWellFormed(less: Less, t: Tree, c: char)
    requires WellFormed(less, t)
    ensures WellFormed(less, Unlink(less, t, c).node)
  {
    var es := Entries(t);
    var u := Unlink(less, t, c);
    assert Unlinked(less, t, c, u);
    match IndexOf(less, es, c) {
      case None =>
      case Some(j) =>
        assert Entries(u.node) == es[..j] + es[j + 1..];
        WellFormedLevel(less, t);
        RemoveSorted(less, es, j);
        RemoveChildrenWellFormed(less, es, j);
        WellFormedLevel(less, u.node);
    }
  }

  lemma RemoveChildrenWellFormed(less: Less, es: seq<Entry>, j: nat)
    requires ChildrenWellFormed(less, es) && j < |es|
    ensures ChildrenWellFormed(less, es[..j] + es[j + 1..])
  {
    var r := es[..j] + es[j + 1..];
    forall m | 0 <= m < |r| ensures WellFormed(less, r[m].child) {
      assert r[m] == es[if m < j then m else m + 1];
    }
  }

  /** Values stored below a level after `c`'s entry is unlinked from it. */
  lemma UnlinkLookup(less: Less, t: Tree, c: char, k: seq<char>)
    requires StrictWeakOrder(less) && WellFormed(less, t) && |k| > 0
    ensures LookupIn(less, Entries(Unlink(less, t, c).node), k) ==
              if IsEqual(less, k[0], c) then Undefined else LookupIn(less, Entries(t), k)
  {
    var es := Entries(t);
    match IndexOf(less, es, c) {
      case None =>
        if IsEqual(less, k[0], c) {
          IndexOfEquivalent(less, es, k[0], c);
        }
      case Some(j) =>
        WellFormedLevel(less, t);
        RemoveKeepsLookup(less, es, c, j, k);
    }
  }

  /** The content of the child level of `cur` after the walk's first two steps
      (`getChild`, then `getBrother`): still sorted with well-formed children, storing
      the same values; and the returned node, if any, is the level's entry equivalent to
      the key character, while a null result means there was none. */
  lemma PrepareLevel(less: Less, cur: Tree, c: char, create: bool)
    requires StrictWeakOrder(less) && cur.Node? && WellFormed(less, cur.child)
    ensures var g := GetChild(cur, create);
            g.child.Node? ==>
              var head := if g.created then g.child.(ch := c) else g.child;
              var b := GetBrother(less, head, c, create);
              var e0 := Entries(cur.child);
              var e1 := Entries(b.chain);
              && Ready(less, e0, e1)
              && (b.found.Some? ==> IndexOf(less, e1, c) == b.found)
              && (b.found.None? ==> IndexOf(less, e0, c).None? && g.node == cur && b.chain == cur.child)
  {
    var g := GetChild(cur, create);
    if g.child.Node? {
      var head := if g.created then g.child.(ch := c) else g.child;
      if g.created {
        FreshReady(less, head, c);
      } else {
        ExistingReady(less, head, c, create);
      }
    }
  }

  /** A level the walk can descend into: sorted, with well-formed children, and storing
      exactly what the level `e0` it was prepared from stores. */
  ghost predicate Ready(less: Less, e0: seq<Entry>, e1: seq<Entry>) {
    && Sorted(less, e1) && ChildrenWellFormed(less, e1)
    && forall k :: |k| > 0 ==> LookupIn(less, e1, k) == LookupIn(less, e0, k)
  }

  /** The default child created for an empty level, relabelled with `c`, is found at once. */
  lemma FreshReady(less: Less, head: Tree, c: char)
    requires StrictWeakOrder(less) && head == Node(c, Undefined, Nil, Nil)
    ensures var b := GetBrother(less, head, c, true);
            Ready(less, [], Entries(b.chain)) && b.found == Some(0) && IndexOf(less, Entries(b.chain), c) == Some(0)
  {
    CharOrder.StrictWeakOrderWrappers(less, c, c, c);
    var e1 := Entries(head);
    EntriesCons(head);
    assert e1 == [Entry(c, Undefined, Nil)] + [];
    forall k | |k| > 0 ensures LookupIn(less, e1, k) == LookupIn(less, [], k) {
      LookupEmptyEntry(less, c, k[1..]);
    }
  }

  /** `getBrother` on an existing well-formed level keeps it ready. */
  lemma ExistingReady(less: Less, head: Tree, c: char, create: bool)
    requires StrictWeakOrder(less) && head.Node? && WellFormed(less, head)
    ensures var b := GetBrother(less, head, c, create);
            && Ready(less, Entries(head), Entries(b.chain))
            && (b.found.Some? ==> IndexOf(less, Entries(b.chain), c) == b.found)
            && (b.found.None? ==> IndexOf(less, Entries(head), c).None? && b.chain == head)
  {
    var b := GetBrother(less, head, c, create);
    var e0 := Entries(head);
    WellFormedLevel(less, head);
    GetBrotherKeepsOrder(less, head, c, create);
    if b.created {
      var p := if IsLess(less, c, head.ch) then 0 else LowerBoundIndex(less, e0, c);
      assert Entries(b.chain) == Insert(e0, p, Entry(c, Undefined, Nil));
      InsertReady(less, e0, p, c);
    }
  }

  /** Inserting a valueless, childless entry where no equivalent one was keeps a level ready. */
  lemma InsertReady(less: Less, e0: seq<Entry>, p: nat, c: char)
    requires StrictWeakOrder(less) && p <= |e0| && ChildrenWellFormed(less, e0)
    requires Sorted(less, Insert(e0, p, Entry(c, Undefined, Nil))) && IndexOf(less, e0, c).None?
    ensures Ready(less, e0, Insert(e0, p, Entry(c, Undefined, Nil)))
  {
    var e1 := Insert(e0, p, Entry(c, Undefined, Nil));
    forall k | |k| > 0 ensures LookupIn(less, e1, k) == LookupIn(less, e0, k) {
      InsertKeepsLookup(less, e0, p, c, k);
    }
    InsertAt(e0, p, Entry(c, Undefined, Nil));
  }

  /** One level of the walk: the entry the walk descended into is replaced by its new
      version, so keys through that entry read from the new version and all others
      read what the level stored before. */
  lemma LevelContents(less: Less, e0: seq<Entry>, e1: seq<Entry>, i: nat, c: char, sub: Tree, k: seq<char>)
    requires StrictWeakOrder(less) && Sorted(less, e1) && i < |e1| && IsEqual(less, e1[i].ch, c)
    requires sub.Node? && sub.ch == e1[i].ch && |k| > 0
    requires LookupIn(less, e1, k) == LookupIn(less, e0, k)
    ensures IsEqual(less, k[0], c) ==>
              && LookupIn(less, e1[i := EntryOf(sub)], k) == Lookup(less, sub, k[1..])
              && LookupIn(less, e0, k) == LookupEntry(less, e1[i], k[1..])
    ensures !IsEqual(less, k[0], c) ==> LookupIn(less, e1[i := EntryOf(sub)], k) == LookupIn(less, e0, k)
  {
    var e2 := e1[i := EntryOf(sub)];
    if IsEqual(less, k[0], c) {
      CharOrder.StrictWeakOrderWrappers(less, e1[i].ch, c, k[0]);
      assert SameChars(e1, e2);
      SortedSameChars(less, e1, e2);
      LookupInAt(less, e2, k, i);
      LookupInAt(less, e1, k, i);
    } else {
      CharOrder.StrictWeakOrderWrappers(less, k[0], e1[i].ch, c);
      ReplaceKeepsLookup(less, e1, i, EntryOf(sub), k);
    }
  }

  /** What `GetNodeContents` states of the result `r` of the walk from `cur` along `key`. */
  ghost predicate Describes(less: Less, cur: Tree, key: seq<char>, edit: Edit, r: Located)
    requires cur.Node? && r.tree.Node? && !edit.Detach?
    requires forall m :: 0 <= m < |r.path| ==> r.path[m].Node?
  {
    && WellFormed(less, r.tree)
    && (forall k :: Lookup(less, r.tree, k) ==
          if |r.path| > 0 && HasKeyPrefix(less, k, key)
          then EditEffect(less, edit, k[|key|..], Lookup(less, cur, k))
          else Lookup(less, cur, k))
    && (|r.path| > 0 ==> r.path[|r.path| - 1].value == Lookup(less, r.tree, key))
    && (|r.path| == 0 ==> forall k :: HasKeyPrefix(less, k, key) ==> Lookup(less, cur, k) == Undefined)
  }

  /** `GetNodeContents` as one fact about the walk's result. */
  lemma ContentsDescribed(less: Less, cur: Tree, key: seq<char>, create: bool, edit: Edit)
    requires StrictWeakOrder(less) && cur.Node? && WellFormed(less, cur) && !edit.Detach?
    ensures Describes(less, cur, key, edit, GetNode(less, cur, key, create, edit))
  {
    GetNodeContents(less, cur, key, create, edit);
  }

  /** `intGetNode` followed by a non-structural edit, from a well-formed node: the tree
      stays well formed; when the key resolves, exactly the values under keys extending
      it change, as the edit says, and the last node on the path holds the key's new
      value; when it does not resolve, nothing was stored under the key or below it, and
      nothing stored changes (though nodes without value may have been inserted). */
  lemma {:induction false} GetNodeContents(less: Less, cur: Tree, key: seq<char>, create: bool, edit: Edit)
    requires StrictWeakOrder(less) && cur.Node? && WellFormed(less, cur) && !edit.Detach?
    ensures var r := GetNode(less, cur, key, create, edit);
            && WellFormed(less, r.tree)
            && (forall k :: Lookup(less, r.tree, k) ==
                  if |r.path| > 0 && HasKeyPrefix(less, k, key)
                  then EditEffect(less, edit, k[|key|..], Lookup(less, cur, k))
                  else Lookup(less, cur, k))
            && (|r.path| > 0 ==> r.path[|r.path| - 1].value == Lookup(less, r.tree, key))
            && (|r.path| == 0 ==> forall k :: HasKeyPrefix(less, k, key) ==> Lookup(less, cur, k) == Undefined)
    decreases |key|, 1
  {
    var r := GetNode(less, cur, key, create, edit);
    if |key| == 0 {
      ApplyContents(less, cur, edit);
      forall k ensures HasKeyPrefix(less, k, key) && k[|key|..] == k {
      }
    } else {
      var c := key[0];
      var e0 := Entries(cur.child);
      PrepareReady(less, cur, c, create);
      if Prepare(less, cur, c, create).found.None? {
        forall k | HasKeyPrefix(less, k, key) ensures Lookup(less, cur, k) == Undefined {
          HasKeyPrefixCons(less, k, key);
          IndexOfEquivalent(less, e0, k[0], c);
          assert Lookup(less, cur, k) == LookupIn(less, e0, k);
        }
      } else {
        DescendContents(less, cur, key, create, edit);
      }
    }
  }

  /** The case of `GetNodeContents` where the walk finds or creates the node for the key's
      first character and goes on below it. */
  lemma {:induction false} DescendContents(less: Less, cur: Tree, key: seq<char>, create: bool, edit: Edit)
    requires StrictWeakOrder(less) && cur.Node? && WellFormed(less, cur) && !edit.Detach? && |key| > 0
    requires Prepare(less, cur, key[0], create).found.Some?
    ensures Describes(less, cur, key, edit, GetNode(less, cur, key, create, edit))
    decreases |key|, 0
  {
    var c := key[0];
    var l := Prepare(less, cur, c, create);
    PrepareReady(less, cur, c, create);
    var n1 := Sibling(l.chain, l.found.value);
    SiblingWellFormed(less, l.chain, l.found.value);
    GetNodeContents(less, n1, key[1..], create, edit);
    GetNodeShape(less, cur, key, create, edit, n1);
    DescendAssemble(less, cur, key, edit, l, n1, GetNode(less, n1, key[1..], create, edit));
  }

  /** `Assemble` for the level record of the walk and the walk below its target. */
  lemma DescendAssemble(less: Less, cur: Tree, key: seq<char>, edit: Edit, l: Level, n1: Tree, sub: Located)
    requires StrictWeakOrder(less) && cur.Node? && WellFormed(less, cur) && !edit.Detach? && |key| > 0
    requires l.node.Node? && l.node.ch == cur.ch && l.node.value == cur.value && l.node.next == cur.next
    requires l.found.Some? && l.found.value < |Entries(l.chain)| && n1 == Sibling(l.chain, l.found.value)
    requires Ready(less, Entries(cur.child), Entries(l.chain)) && IndexOf(less, Entries(l.chain), key[0]) == l.found
    requires sub.tree.Node? && sub.tree.ch == n1.ch && sub.tree.next == n1.next
    requires forall m :: 0 <= m < |sub.path| ==> sub.path[m].Node?
    requires Describes(less, n1, key[1..], edit, sub)
    ensures var node := l.node.(child := PutSibling(l.chain, l.found.value, sub.tree));
            Describes(less, cur, key, edit, Located(node, if |sub.path| == 0 then [] else [node] + sub.path, sub.detached))
  {
    var i := l.found.value;
    PutSiblingEntry(l.chain, i, sub.tree);
    var node := l.node.(child := PutSibling(l.chain, i, sub.tree));
    var r := Located(node, if |sub.path| == 0 then [] else [node] + sub.path, sub.detached);
    Assemble(less, cur, key, edit, r, Entries(l.chain), i, sub, n1);
  }

  /** `PrepareLevel` in terms of the level record the walk works with. */
  lemma PrepareReady(less: Less, cur: Tree, c: char, create: bool)
    requires StrictWeakOrder(less) && cur.Node? && WellFormed(less, cur.child)
    ensures var l := Prepare(less, cur, c, create);
            && (l.found.Some? ==>
                  && Ready(less, Entries(cur.child), Entries(l.chain))
                  && IndexOf(less, Entries(l.chain), c) == l.found
                  && WellFormed(less, l.chain)
                  && Target(l, c) == Some(Sibling(l.chain, l.found.value)))
            && (l.found.None? ==> IndexOf(less, Entries(cur.child), c).None? && l.node == cur && l.chain == cur.child)
  {
    PrepareLevel(less, cur, c, create);
    var l := Prepare(less, cur, c, create);
    if l.found.Some? {
      WellFormedLevel(less, l.chain);
    }
  }

  /** The last step of `DescendContents`: the level below `cur` with the entry for the
      key's first character replaced by the result of the walk below it. */
  lemma Assemble(less: Less, cur: Tree, key: seq<char>, edit: Edit, r: Located, e1: seq<Entry>,
                 i: nat, sub: Located, n1: Tree)
    requires StrictWeakOrder(less) && cur.Node? && WellFormed(less, cur) && !edit.Detach? && |key| > 0
    requires Sorted(less, e1) && ChildrenWellFormed(less, e1) && i < |e1| && IsEqual(less, e1[i].ch, key[0])
    requires forall k' :: |k'| > 0 ==> LookupIn(less, e1, k') == LookupIn(less, Entries(cur.child), k')
    requires n1.Node? && EntryOf(n1) == e1[i] && sub.tree.Node? && sub.tree.ch == e1[i].ch
    requires forall m :: 0 <= m < |sub.path| ==> sub.path[m].Node?
    requires Describes(less, n1, key[1..], edit, sub)
    requires r.tree.Node? && r.tree.ch == cur.ch && r.tree.value == cur.value && r.tree.next == cur.next
    requires Entries(r.tree.child) == e1[i := EntryOf(sub.tree)]
    requires r.path == if |sub.path| == 0 then [] else [r.tree] + sub.path
    ensures Describes(less, cur, key, edit, r)
  {
    var e2 := e1[i := EntryOf(sub.tree)];
    assert SameChars(e1, e2);
    SortedSameChars(less, e1, e2);
    assert ChildrenWellFormed(less, e2);
    WellFormedLevel(less, r.tree.child);
    AssembleLookup(less, cur, key, edit, r, e1, i, sub, n1);
    if |r.path| > 0 {
      AssembleLast(less, cur, key, r, e1, i, sub);
    } else {
      AssembleMissing(less, cur, key, e1, i, sub, n1);
    }
  }

  lemma AssembleLookup(less: Less, cur: Tree, key: seq<char>, edit: Edit, r: Located, e1: seq<Entry>,
                       i: nat, sub: Located, n1: Tree)
    requires StrictWeakOrder(less) && cur.Node? && !edit.Detach? && |key| > 0
    requires Sorted(less, e1) && i < |e1| && IsEqual(less, e1[i].ch, key[0])
    requires forall k' :: |k'| > 0 ==> LookupIn(less, e1, k') == LookupIn(less, Entries(cur.child), k')
    requires n1.Node? && EntryOf(n1) == e1[i] && sub.tree.Node? && sub.tree.ch == e1[i].ch
    requires forall k' :: Lookup(less, sub.tree, k') ==
               if |sub.path| > 0 && HasKeyPrefix(less, k', key[1..])
               then EditEffect(less, edit, k'[|key| - 1..], Lookup(less, n1, k'))
               else Lookup(less, n1, k')
    requires r.tree.Node? && r.tree.value == cur.value
    requires Entries(r.tree.child) == e1[i := EntryOf(sub.tree)]
    requires |r.path| > 0 <==> |sub.path| > 0
    ensures forall k :: Lookup(less, r.tree, k) ==
              if |r.path| > 0 && HasKeyPrefix(less, k, key)
              then EditEffect(less, edit, k[|key|..], Lookup(less, cur, k))
              else Lookup(less, cur, k)
  {
    forall k
      ensures Lookup(less, r.tree, k) ==
            if |r.path| > 0 && HasKeyPrefix(less, k, key)
            then EditEffect(less, edit, k[|key|..], Lookup(less, cur, k))
            else Lookup(less, cur, k)
    {
      if |k| > 0 {
        assert LookupIn(less, e1, k) == LookupIn(less, Entries(cur.child), k);
        assert Lookup(less, sub.tree, k[1..]) ==
                 if |sub.path| > 0 && HasKeyPrefix(less, k[1..], key[1..])
                 then EditEffect(less, edit, k[1..][|key| - 1..], Lookup(less, n1, k[1..]))
                 else Lookup(less, n1, k[1..]);
      }
      DescendKey(less, cur, r.tree, e1, i, sub.tree, |sub.path| > 0, n1, key, edit, k);
    }
  }

  lemma AssembleLast(less: Less, cur: Tree, key: seq<char>, r: Located, e1: seq<Entry>, i: nat, sub: Located)
    requires StrictWeakOrder(less) && cur.Node? && |key| > 0
    requires Sorted(less, e1) && i < |e1| && IsEqual(less, e1[i].ch, key[0])
    requires sub.tree.Node? && sub.tree.ch == e1[i].ch && |sub.path| > 0 && sub.path[|sub.path| - 1].Node?
    requires sub.path[|sub.path| - 1].value == Lookup(less, sub.tree, key[1..])
    requires r.tree.Node? && Entries(r.tree.child) == e1[i := EntryOf(sub.tree)]
    requires r.path == [r.tree] + sub.path
    ensures r.path[|r.path| - 1].value == Lookup(less, r.tree, key)
  {
    var e2 := e1[i := EntryOf(sub.tree)];
    assert SameChars(e1, e2);
    SortedSameChars(less, e1, e2);
    LookupInAt(less, e2, key, i);
    assert Lookup(less, r.tree, key) == LookupIn(less, e2, key);
    assert r.path[|r.path| - 1] == sub.path[|sub.path| - 1];
  }

  lemma AssembleMissing(less: Less, cur: Tree, key: seq<char>, e1: seq<Entry>, i: nat, sub: Located, n1: Tree)
    requires StrictWeakOrder(less) && cur.Node? && |key| > 0
    requires Sorted(less, e1) && i < |e1| && IsEqual(less, e1[i].ch, key[0])
    requires forall k' :: |k'| > 0 ==> LookupIn(less, e1, k') == LookupIn(less, Entries(cur.child), k')
    requires n1.Node? && EntryOf(n1) == e1[i] && sub.tree.Node? && sub.tree.ch == e1[i].ch
    requires forall k' :: HasKeyPrefix(less, k', key[1..]) ==> Lookup(less, n1, k') == Undefined
    ensures forall k :: HasKeyPrefix(less, k, key) ==> Lookup(less, cur, k) == Undefined
  {
    forall k | HasKeyPrefix(less, k, key) ensures Lookup(less, cur, k) == Undefined {
      HasKeyPrefixCons(less, k, key);
      MissingKey(less, cur, key, e1, i, sub.tree, n1, k);
    }
  }

  lemma MissingKey(less: Less, cur: Tree, key: seq<char>, e1: seq<Entry>, i: nat, sub: Tree, n1: Tree, k: seq<char>)
    requires StrictWeakOrder(less) && cur.Node? && |key| > 0 && |k| > 0 && IsEqual(less, k[0], key[0])
    requires Sorted(less, e1) && i < |e1| && IsEqual(less, e1[i].ch, key[0])
    requires LookupIn(less, e1, k) == LookupIn(less, Entries(cur.child), k)
    requires n1.Node? && EntryOf(n1) == e1[i] && sub.Node? && sub.ch == e1[i].ch
    requires Lookup(less, n1, k[1..]) == Undefined
    ensures Lookup(less, cur, k) == Undefined
  {
    LevelContents(less, Entries(cur.child), e1, i, key[0], sub, k);
    assert Lookup(less, cur, k) == LookupIn(less, Entries(cur.child), k);
  }

  /** One key in `DescendContents`, with the facts about the level below as hypotheses. */
  lemma DescendKey(less: Less, cur: Tree, node: Tree, e1: seq<Entry>, i: nat, sub: Tree, resolved: bool,
                   n1: Tree, key: seq<char>, edit: Edit, k: seq<char>)
    requires StrictWeakOrder(less) && cur.Node? && node.Node? && |key| > 0 && !edit.Detach?
    requires node.value == cur.value
    requires Sorted(less, e1) && i < |e1| && IsEqual(less, e1[i].ch, key[0])
    requires n1.Node? && EntryOf(n1) == e1[i] && sub.Node? && sub.ch == e1[i].ch
    requires Entries(node.child) == e1[i := EntryOf(sub)]
    requires |k| > 0 ==> LookupIn(less, e1, k) == LookupIn(less, Entries(cur.child), k)
    requires |k| > 0 ==>
               Lookup(less, sub, k[1..]) ==
                 (if resolved && HasKeyPrefix(less, k[1..], key[1..])
                  then EditEffect(less, edit, k[1..][|key| - 1..], Lookup(less, n1, k[1..]))
                  else Lookup(less, n1, k[1..]))
    ensures Lookup(less, node, k) ==
              if resolved && HasKeyPrefix(less, k, key)
              then EditEffect(less, edit, k[|key|..], Lookup(less, cur, k))
              else Lookup(less, cur, k)
  {
    if |k| > 0 {
      var e0 := Entries(cur.child);
      LevelContents(less, e0, e1, i, key[0], sub, k);
      HasKeyPrefixCons(less, k, key);
      var before, after := Lookup(less, cur, k), Lookup(less, node, k);
      assert before == LookupIn(less, e0, k);
      assert after == LookupIn(less, e1[i := EntryOf(sub)], k);
      if IsEqual(less, k[0], key[0]) {
        DescendKeyMatch(less, edit, key, k, resolved, before, after, Lookup(less, sub, k[1..]), Lookup(less, n1, k[1..]));
      }
    }
  }

  /** `DescendKey` for a key whose first character is the walked one: what changes below
      the walked child is what changes below `cur`. */
  lemma DescendKeyMatch(less: Less, edit: Edit, key: seq<char>, k: seq<char>, resolved: bool,
                        before: int, after: int, below: int, old1: int)
    requires !edit.Detach? && |key| > 0 && |k| > 0
    requires HasKeyPrefix(less, k, key) <==> IsEqual(less, k[0], key[0]) && HasKeyPrefix(less, k[1..], key[1..])
    requires IsEqual(less, k[0], key[0]) && after == below && before == old1
    requires below == if resolved && HasKeyPrefix(less, k[1..], key[1..])
                      then EditEffect(less, edit, k[1..][|key| - 1..], old1)
                      else old1
    ensures after == if resolved && HasKeyPrefix(less, k, key) then EditEffect(less, edit, k[|key|..], before) else before
  {
    if |key| <= |k| {
      assert k[1..][|key| - 1..] == k[|key|..];
    }
  }



  /** A walk that goes below `cur` to `n` rebuilds `cur` around the walk from `n`. */
  lemma GetNodeShape(less: Less, cur: Tree, key: seq<char>, create: bool, edit: Edit, n: Tree)
    requires cur.Node? && |key| > 0 && Target(Prepare(less, cur, key[0], create), key[0]) == Some(n)
    ensures var l := Prepare(less, cur, key[0], create);
            var sub := GetNode(less, n, key[1..], create, edit);
            var node := l.node.(child := PutSibling(l.chain, l.found.value, sub.tree));
            GetNode(less, cur, key, create, edit) == Located(node, if |sub.path| == 0 then [] else [node] + sub.path, sub.detached)
  {
  }

  /** `r` ends at the node reached by `w` with the edit applied there. */
  predicate Fused(less: Less, edit: Edit, r: Located, w: Located) {
    && (|r.path| > 0 <==> |w.path| > 0)
    && (|w.path| > 0 ==>
          && w.path[|w.path| - 1].Node?
          && var a := Apply(less, w.path[|w.path| - 1], edit);
          && r.path[|r.path| - 1] == a.node
          && r.detached == a.removed)
  }

  /** The walk does not depend on the edit: whatever the edit, the key resolves exactly
      when it does for `find`, and the edit acts on the very node `find` would reach. */
  lemma {:induction false} GetNodeFusion(less: Less, cur: Tree, key: seq<char>, create: bool, edit: Edit)
    requires cur.Node?
    ensures Fused(less, edit, GetNode(less, cur, key, create, edit), GetNode(less, cur, key, create, Keep))
    decreases |key|
  {
    if |key| > 0 {
      var l := Prepare(less, cur, key[0], create);
      match Target(l, key[0]) {
        case None =>
        case Some(n) =>
          GetNodeShape(less, cur, key, create, edit, n);
          GetNodeShape(less, cur, key, create, Keep, n);
          GetNodeFusion(less, n, key[1..], create, edit);
          var sub := GetNode(less, n, key[1..], create, edit);
          var subw := GetNode(less, n, key[1..], create, Keep);
          FusionStep(less, edit, GetNode(less, cur, key, create, edit), GetNode(less, cur, key, create, Keep), sub, subw,
                     l.node.(child := PutSibling(l.chain, l.found.value, sub.tree)),
                     l.node.(child := PutSibling(l.chain, l.found.value, subw.tree)));
      }
    }
  }

  /** `GetNodeFusion` carried up one level. */
  lemma FusionStep(less: Less, edit: Edit, r: Located, w: Located, sub: Located, subw: Located, node: Tree, nodew: Tree)
    requires r == Located(node, if |sub.path| == 0 then [] else [node] + sub.path, sub.detached)
    requires w == Located(nodew, if |subw.path| == 0 then [] else [nodew] + subw.path, subw.detached)
    requires Fused(less, edit, sub, subw)
    ensures Fused(less, edit, r, w)
  {
  }

  /** Each node of a path lies on the child chain of the node before it. */
  ghost predicate Linked(nodes: seq<Tree>) {
    forall j :: 0 <= j < |nodes| - 1 ==> nodes[j].Node? && OnChain(nodes[j].child, nodes[j + 1])
  }

  lemma LinkedCons(node: Tree, path: seq<Tree>)
    requires |path| > 0 && node.Node? && OnChain(node.child, path[0]) && Linked(path)
    ensures Linked([node] + path)
  {
    var nodes := [node] + path;
    forall j | 0 <= j < |nodes| - 1 ensures nodes[j].Node? && OnChain(nodes[j].child, nodes[j + 1]) {
      if j > 0 {
        assert nodes[j] == path[j - 1] && nodes[j + 1] == path[j];
      }
    }
  }

  /** The path the walk returns goes down the tree as it is afterwards: every node on it
      is one of the children of the node before it. */
  lemma {:induction false} GetNodeLinked(less: Less, cur: Tree, key: seq<char>, create: bool, edit: Edit)
    requires cur.Node?
    ensures Linked(GetNode(less, cur, key, create, edit).path)
    decreases |key|
  {
    if |key| > 0 {
      var c := key[0];
      var l := Prepare(less, cur, c, create);
      match Target(l, c) {
        case None =>
        case Some(n1) =>
          GetNodeLinked(less, n1, key[1..], create, edit);
          GetNodeShape(less, cur, key, create, edit, n1);
          LinkedStep(l, n1, GetNode(less, n1, key[1..], create, edit));
      }
    }
  }

  /** Rebuilding the node around the walk below its target keeps the path linked. */
  lemma LinkedStep(l: Level, n1: Tree, sub: Located)
    requires l.found.Some? && l.found.value < |Entries(l.chain)| && l.node.Node?
    requires sub.tree.Node? && Linked(sub.path) && (|sub.path| > 0 ==> sub.path[0] == sub.tree)
    ensures var node := l.node.(child := PutSibling(l.chain, l.found.value, sub.tree));
            Linked(if |sub.path| == 0 then [] else [node] + sub.path)
  {
    if |sub.path| > 0 {
      var i := l.found.value;
      var chain := PutSibling(l.chain, i, sub.tree);
      SiblingOfPut(l.chain, i, sub.tree);
      EntriesCons(sub.tree);
      OnChainSibling(chain, i);
      LinkedCons(l.node.(child := chain), sub.path);
    }
  }
}
