/** What the as-written `removeKey` (CharTrie/TrieData.h:576-606) does to the values a
    trie stores: `removeBrother(c)` (lines 453-487) acts on the node reached for the key
    without its last character, so the level that changes is the one holding that node,
    not the level below it. The walk that carries the removal is compared with the plain
    walk along the same key: only the reached node's level differs, and there the
    reached node, with everything after it on its chain, is replaced by what
    `removeBrother` leaves. */
module Removals {
  import opened Options
  import opened CharOrder
  import opened Nodes
  import opened Contents
  import opened Walks

  /** Whether `removeBrother(c)` on `n` takes its first branch: `n`'s first child is
      equivalent to `c`. */
  predicate HeadMatches(less: Less, n: Tree, c: char)
    requires n.Node?
  {
    n.child.Node? && IsEqual(less, n.child.ch, c)
  }

  /** The level `t` with its `j`-th node, and everything after it, replaced by that node
      as `edit` leaves it. */
  function Spliced(less: Less, t: Tree, j: nat, edit: Edit): seq<Entry>
    requires j < |Entries(t)|
  {
    Entries(t)[..j] + Entries(Apply(less, Sibling(t, j), edit).node)
  }

  /** Between two nodes `wt` (before) and `rt` (after): keys that extend `q` by at least
      one character read from the level `es`, all others read what `wt` stores; and `es`
      being sorted, with well-formed children, is all `rt` needs to be well formed. */
  ghost predicate GraftedLevel(less: Less, q: seq<char>, es: seq<Entry>, wt: Tree, rt: Tree) {
    && wt.Node? && rt.Node?
    && (forall k :: Lookup(less, rt, k) ==
          if HasKeyPrefix(less, k, q) && |k| > |q| then LookupIn(less, es, k[|q|..]) else Lookup(less, wt, k))
    && (Sorted(less, es) && ChildrenWellFormed(less, es) ==> WellFormed(less, rt))
  }

  /** `r`, the walk along `key` with `edit`, differs from `w`, the plain walk along the
      same key, in the reached node's level only: that level is the child chain of `m`,
      the node for the key without its last character, the reached node is its `j`-th
      node, and the level as `r` has it is the splice of the edited reached node. */
  ghost predicate Grafted(less: Less, key: seq<char>, edit: Edit, w: Located, r: Located, m: Tree, j: nat) {
    && |key| > 0 && w.tree.Node? && r.tree.Node?
    && (|w.path| == 0 ==> r.tree == w.tree)
    && (|w.path| > 0 ==>
          && |w.path| == |key| + 1
          && Reached(less, m, j, key[|key| - 1], w.path[|key| - 1], w.path[|key|])
          && GraftedLevel(less, key[..|key| - 1], Spliced(less, m.child, j, edit), w.tree, r.tree))
  }

  /** `parent` is the well-formed node `m`, and `n` is the `j`-th node of its child chain,
      the one `c` selects. */
  ghost predicate Reached(less: Less, m: Tree, j: nat, c: char, parent: Tree, n: Tree) {
    && parent == m && m.Node? && WellFormed(less, m.child)
    && j < |Entries(m.child)| && IndexOf(less, Entries(m.child), c) == Some(j)
    && Sibling(m.child, j) == n
  }

  /** Writing back the node a pointer designates changes nothing. */
  lemma {:induction false} PutSiblingOwn(t: Tree, i: nat)
    ensures PutSibling(t, i, Sibling(t, i)) == t
    decreases i
  {
    if t.Node? && i > 0 {
      PutSiblingOwn(t.next, i - 1);
    }
  }

  /** Whatever the edit, the walk from a well-formed node changes nothing outside the
      level of the node it reaches; `m` and `j` locate that level. */
  lemma {:induction false} GetNodeGraft(less: Less, cur: Tree, key: seq<char>, create: bool, edit: Edit)
    returns (m: Tree, j: nat)
    requires StrictWeakOrder(less) && cur.Node? && WellFormed(less, cur) && |key| > 0
    ensures Grafted(less, key, edit, GetNode(less, cur, key, create, Keep), GetNode(less, cur, key, create, edit), m, j)
    decreases |key|, 1
  {
    PrepareReady(less, cur, key[0], create);
    m, j := cur, 0;
    if Prepare(less, cur, key[0], create).found.Some? {
      m, j := GraftFound(less, cur, key, create, edit);
    }
  }

  /** `GetNodeGraft` when the first character of the key has a node below `cur`. */
  lemma {:induction false} GraftFound(less: Less, cur: Tree, key: seq<char>, create: bool, edit: Edit)
    returns (m: Tree, j: nat)
    requires StrictWeakOrder(less) && cur.Node? && WellFormed(less, cur) && |key| > 0
    requires Prepare(less, cur, key[0], create).found.Some?
    ensures Grafted(less, key, edit, GetNode(less, cur, key, create, Keep), GetNode(less, cur, key, create, edit), m, j)
    decreases |key|, 0
  {
    var c := key[0];
    var l := Prepare(less, cur, c, create);
    PrepareReady(less, cur, c, create);
    var i := l.found.value;
    var n1 := Sibling(l.chain, i);
    var w := GetNode(less, cur, key, create, Keep);
    var r := GetNode(less, cur, key, create, edit);
    GetNodeShape(less, cur, key, create, edit, n1);
    GetNodeShape(less, cur, key, create, Keep, n1);
    var subw := GetNode(less, n1, key[1..], create, Keep);
    var sub := GetNode(less, n1, key[1..], create, edit);
    if |key| == 1 {
      assert subw == Located(n1, [n1], None);
      m, j := w.tree, i;
      GraftLast(less, cur, c, l.node, l.chain, i, edit, w, r);
    } else {
      SiblingWellFormed(less, l.chain, i);
      m, j := GetNodeGraft(less, n1, key[1..], create, edit);
      GraftStep(less, cur, key, edit, l.node, l.chain, i, subw, sub, w, r, m, j);
    }
  }

  /** `GetNodeGraft` for a one-character key: the reached node sits in `cur`'s own child
      chain. */
  lemma GraftLast(less: Less, cur: Tree, c: char, node: Tree, chain: Tree, i: nat, edit: Edit, w: Located, r: Located)
    requires StrictWeakOrder(less) && cur.Node? && WellFormed(less, cur)
    requires node.Node? && node.ch == cur.ch && node.value == cur.value && node.next == cur.next
    requires WellFormed(less, chain) && i < |Entries(chain)| && IndexOf(less, Entries(chain), c) == Some(i)
    requires w.tree == node.(child := PutSibling(chain, i, Sibling(chain, i)))
    requires w.path == [w.tree] + [Sibling(chain, i)]
    requires r.tree == node.(child := PutSibling(chain, i, Apply(less, Sibling(chain, i), edit).node))
    ensures Grafted(less, [c], edit, w, r, w.tree, i)
  {
    PutSiblingOwn(chain, i);
    assert w.tree.child == chain;
    ReachedTop(less, w.tree, i, c, w.path);
    LastLevel(less, cur, node, chain, i, edit, w.tree, r.tree);
    assert [c][..0] == [] && [c][0] == c;
    GraftedOfParts(less, [c], edit, w, r, w.tree, i);
  }

  /** `Grafted` from its three parts, for a walk that reached a node. */
  lemma GraftedOfParts(less: Less, key: seq<char>, edit: Edit, w: Located, r: Located, m: Tree, j: nat)
    requires |key| > 0 && w.tree.Node? && r.tree.Node? && |w.path| == |key| + 1
    requires Reached(less, m, j, key[|key| - 1], w.path[|key| - 1], w.path[|key|])
    requires GraftedLevel(less, key[..|key| - 1], Spliced(less, m.child, j, edit), w.tree, r.tree)
    ensures Grafted(less, key, edit, w, r, m, j)
  {
  }

  /** The reached node of a one-character walk, as `Grafted` names it. */
  lemma ReachedTop(less: Less, m: Tree, i: nat, c: char, path: seq<Tree>)
    requires m.Node? && WellFormed(less, m.child) && i < |Entries(m.child)| && IndexOf(less, Entries(m.child), c) == Some(i)
    requires path == [m] + [Sibling(m.child, i)]
    ensures Reached(less, m, i, c, path[0], path[1])
  {
  }

  /** The level facts of `GraftLast`. */
  lemma LastLevel(less: Less, cur: Tree, node: Tree, chain: Tree, i: nat, edit: Edit, wt: Tree, rt: Tree)
    requires cur.Node? && WellFormed(less, cur)
    requires node.Node? && node.ch == cur.ch && node.value == cur.value && node.next == cur.next
    requires i < |Entries(chain)|
    requires wt == node.(child := chain)
    requires rt == node.(child := PutSibling(chain, i, Apply(less, Sibling(chain, i), edit).node))
    ensures GraftedLevel(less, [], Spliced(less, chain, i, edit), wt, rt)
  {
    var es := Spliced(less, chain, i, edit);
    assert Entries(rt.child) == es;
    LevelAtTop(less, es, wt, rt);
  }

  /** A node whose child level is `es` grafted onto one with the same value. */
  lemma LevelAtTop(less: Less, es: seq<Entry>, wt: Tree, rt: Tree)
    requires wt.Node? && rt.Node? && rt.value == wt.value && Entries(rt.child) == es
    requires Above(less, rt.ch, rt.next) && WellFormed(less, rt.next)
    ensures GraftedLevel(less, [], es, wt, rt)
  {
    forall k ensures Lookup(less, rt, k) ==
                     if HasKeyPrefix(less, k, []) && |k| > 0 then LookupIn(less, es, k[0..]) else Lookup(less, wt, k) {
      assert k[0..] == k && k[..0] == [];
    }
    if Sorted(less, es) && ChildrenWellFormed(less, es) {
      WellFormedLevel(less, rt.child);
    }
  }

  /** `GetNodeGraft` carried up one level. */
  lemma GraftStep(less: Less, cur: Tree, key: seq<char>, edit: Edit, node: Tree, chain: Tree, i: nat,
                  subw: Located, sub: Located, w: Located, r: Located, m: Tree, j: nat)
    requires StrictWeakOrder(less) && cur.Node? && WellFormed(less, cur) && |key| > 1
    requires node.Node? && node.ch == cur.ch && node.value == cur.value && node.next == cur.next
    requires WellFormed(less, chain) && i < |Entries(chain)| && IndexOf(less, Entries(chain), key[0]) == Some(i)
    requires sub.tree.Node? && sub.tree.ch == Sibling(chain, i).ch && sub.tree.next == Sibling(chain, i).next
    requires subw.tree.Node? && subw.tree.ch == Sibling(chain, i).ch && subw.tree.next == Sibling(chain, i).next
    requires Grafted(less, key[1..], edit, subw, sub, m, j)
    requires r.tree == node.(child := PutSibling(chain, i, sub.tree))
    requires w.tree == node.(child := PutSibling(chain, i, subw.tree))
    requires w.path == if |subw.path| == 0 then [] else [w.tree] + subw.path
    ensures Grafted(less, key, edit, w, r, m, j)
  {
    if |subw.path| > 0 {
      var d := |key| - 1;
      TailSlices(key, d);
      ReachedStep(less, key, m, j, subw.path, w.path);
      GraftLevelUp(less, cur, key, node, chain, i, Spliced(less, m.child, j, edit), subw.tree, sub.tree, w.tree, r.tree);
    }
  }

  /** The reached node and its parent, seen one level further up the path. */
  lemma ReachedStep(less: Less, key: seq<char>, m: Tree, j: nat, subpath: seq<Tree>, path: seq<Tree>)
    requires |key| > 1 && |subpath| == |key| && |path| == |key| + 1 && path[1..] == subpath
    requires Reached(less, m, j, key[1..][|key| - 2], subpath[|key| - 2], subpath[|key| - 1])
    requires key[1..][|key| - 2] == key[|key| - 1]
    ensures Reached(less, m, j, key[|key| - 1], path[|key| - 1], path[|key|])
  {
    assert path[|key| - 1] == subpath[|key| - 2] && path[|key|] == subpath[|key| - 1];
  }

  /** The level facts of `GraftStep`: replacing the `i`-th node of `chain` by `sub` and
      by `subw` extends `GraftedLevel` by the key's first character. */
  lemma GraftLevelUp(less: Less, cur: Tree, key: seq<char>, node: Tree, chain: Tree, i: nat, es: seq<Entry>,
                     subw: Tree, sub: Tree, wt: Tree, rt: Tree)
    requires StrictWeakOrder(less) && cur.Node? && WellFormed(less, cur) && |key| > 1
    requires node.Node? && node.ch == cur.ch && node.value == cur.value && node.next == cur.next
    requires WellFormed(less, chain) && i < |Entries(chain)| && IndexOf(less, Entries(chain), key[0]) == Some(i)
    requires sub.Node? && sub.ch == Sibling(chain, i).ch && sub.next == Sibling(chain, i).next
    requires subw.Node? && subw.ch == Sibling(chain, i).ch && subw.next == Sibling(chain, i).next
    requires rt == node.(child := PutSibling(chain, i, sub)) && wt == node.(child := PutSibling(chain, i, subw))
    requires GraftedLevel(less, key[..|key| - 1][1..], es, subw, sub)
    ensures GraftedLevel(less, key[..|key| - 1], es, wt, rt)
  {
    PutSiblingEntry(chain, i, sub);
    PutSiblingEntry(chain, i, subw);
    WellFormedLevel(less, chain);
    GraftLevelStep(less, key[..|key| - 1], Entries(chain), i, es, sub, subw, rt, wt);
  }

  /** Dropping the first character of `key` shifts its positions by one. */
  lemma TailSlices(key: seq<char>, d: nat)
    requires 0 < d < |key|
    ensures key[1..][d - 1] == key[d] && key[1..][..d - 1] == key[..d][1..]
  {
  }

  /** `GraftedLevel` carried up one level: `rt` and `wt` hold the level `e1` with the
      entry for `p[0]` replaced by `sub` and `subw` respectively. */
  lemma GraftLevelStep(less: Less, p: seq<char>, e1: seq<Entry>, i: nat, es: seq<Entry>, sub: Tree, subw: Tree, rt: Tree, wt: Tree)
    requires StrictWeakOrder(less) && |p| > 0
    requires Sorted(less, e1) && ChildrenWellFormed(less, e1) && i < |e1| && IsEqual(less, e1[i].ch, p[0])
    requires sub.Node? && subw.Node? && sub.ch == e1[i].ch && subw.ch == e1[i].ch
    requires rt.Node? && wt.Node? && rt.value == wt.value && Above(less, rt.ch, rt.next) && WellFormed(less, rt.next)
    requires Entries(rt.child) == e1[i := EntryOf(sub)] && Entries(wt.child) == e1[i := EntryOf(subw)]
    requires GraftedLevel(less, p[1..], es, subw, sub)
    ensures GraftedLevel(less, p, es, wt, rt)
  {
    forall k ensures Lookup(less, rt, k) ==
                     if HasKeyPrefix(less, k, p) && |k| > |p| then LookupIn(less, es, k[|p|..]) else Lookup(less, wt, k) {
      GraftKey(less, p, e1, i, sub, subw, es, rt, wt, k);
    }
    if Sorted(less, es) && ChildrenWellFormed(less, es) {
      var e2 := e1[i := EntryOf(sub)];
      assert SameChars(e1, e2);
      SortedSameChars(less, e1, e2);
      assert ChildrenWellFormed(less, e2);
      WellFormedLevel(less, rt.child);
    }
  }

  /** One key's value in `GraftLevelStep`. */
  lemma GraftKey(less: Less, p: seq<char>, e1: seq<Entry>, i: nat, sub: Tree, subw: Tree, es: seq<Entry>,
                 rt: Tree, wt: Tree, k: seq<char>)
    requires |p| > 0 && StrictWeakOrder(less) && Sorted(less, e1) && i < |e1| && IsEqual(less, e1[i].ch, p[0])
    requires sub.Node? && subw.Node? && sub.ch == e1[i].ch && subw.ch == e1[i].ch
    requires rt.Node? && wt.Node? && rt.value == wt.value
    requires Entries(rt.child) == e1[i := EntryOf(sub)] && Entries(wt.child) == e1[i := EntryOf(subw)]
    requires |k| > 0 ==>
               Lookup(less, sub, k[1..]) ==
                 if HasKeyPrefix(less, k[1..], p[1..]) && |k[1..]| > |p| - 1
                 then LookupIn(less, es, k[1..][|p| - 1..])
                 else Lookup(less, subw, k[1..])
    ensures Lookup(less, rt, k) ==
              if HasKeyPrefix(less, k, p) && |k| > |p| then LookupIn(less, es, k[|p|..]) else Lookup(less, wt, k)
  {
    if |k| > 0 {
      LevelContents(less, e1, e1, i, p[0], sub, k);
      LevelContents(less, e1, e1, i, p[0], subw, k);
      HasKeyPrefixCons(less, k, p);
      if |k| > |p| {
        assert k[1..][|p| - 1..] == k[|p|..];
      }
    }
  }

  // ---------------------------------------------------------------------------------
  // The reached node's level

  /** The chain after `n`, read as the level after `n`'s entry. */
  lemma NextEntries(t: Tree, j: nat)
    requires j < |Entries(t)|
    ensures Entries(Sibling(t, j).next) == Entries(t)[j + 1..]
    ensures Sibling(t, j).next.Node? <==> j + 1 < |Entries(t)|
    ensures j + 1 < |Entries(t)| ==> Sibling(t, j).next.ch == Entries(t)[j + 1].ch
  {
    var n := Sibling(t, j);
    EntriesCons(n);
    TailAfter(Entries(t)[j..], Entries(n.next));
    assert Entries(t)[j..][1..] == Entries(t)[j + 1..];
    if n.next.Node? {
      EntriesCons(n.next);
    }
  }

  /** The plain walk's splice is the level itself. */
  lemma SplicedKeep(less: Less, t: Tree, j: nat)
    requires j < |Entries(t)|
    ensures Spliced(less, t, j, Keep) == Entries(t)
  {
    SplicedUnchanged(less, t, j, Keep);
  }

  /** An edit that leaves the `j`-th node as it was leaves the level as it was. */
  lemma SplicedUnchanged(less: Less, t: Tree, j: nat, edit: Edit)
    requires j < |Entries(t)| && Apply(less, Sibling(t, j), edit).node == Sibling(t, j)
    ensures Spliced(less, t, j, edit) == Entries(t)
  {
    var e := Entries(t);
    var n := Sibling(t, j);
    assert Entries(n) == e[j..];
    Rejoin(e, j);
  }

  /** A sequence is its first `j` elements followed by the rest. */
  lemma Rejoin(e: seq<Entry>, j: nat)
    requires j <= |e|
    ensures e[..j] + e[j..] == e
  {
  }

  /** The first branch of `removeBrother` at the `j`-th node: that node's entry takes the
      following node's chain as its children, and the following node leaves the level. */
  lemma HeadSpliced(less: Less, t: Tree, j: nat, c: char)
    requires j < |Entries(t)| && HeadMatches(less, Sibling(t, j), c)
    ensures var e := Entries(t);
            var u := e[j := Entry(e[j].ch, e[j].value, Sibling(t, j).next)];
            Spliced(less, t, j, Detach(c)) == if j + 1 < |e| then u[..j + 1] + u[j + 2..] else u
  {
    var e := Entries(t);
    var n := Sibling(t, j);
    NextEntries(t, j);
    HeadNode(less, n, c);
    HeadSeq(e, j, Entry(e[j].ch, e[j].value, n.next));
  }

  /** The node the first branch of `removeBrother` leaves, read as a level. */
  lemma HeadNode(less: Less, n: Tree, c: char)
    requires n.Node? && HeadMatches(less, n, c)
    ensures Entries(Apply(less, n, Detach(c)).node) ==
              [Entry(n.ch, n.value, n.next)] + (if n.next.Nil? then [] else Entries(n.next)[1..])
  {
    EntriesCons(Apply(less, n, Detach(c)).node);
  }

  lemma HeadSeq(e: seq<Entry>, j: nat, x: Entry)
    requires j < |e|
    ensures e[..j] + ([x] + (if j + 1 < |e| then e[j + 1..][1..] else [])) ==
              if j + 1 < |e| then e[j := x][..j + 1] + e[j := x][j + 2..] else e[j := x]
  {
    assert e[..j] + [x] == e[j := x][..j + 1];
    if j + 1 < |e| {
      assert e[j + 1..][1..] == e[j := x][j + 2..];
    }
  }

  /** The levels a head-branch removal leaves stay sorted with well-formed children. */
  lemma HeadOrder(less: Less, t: Tree, j: nat, c: char)
    requires StrictWeakOrder(less) && WellFormed(less, t) && j < |Entries(t)| && HeadMatches(less, Sibling(t, j), c)
    ensures var es := Spliced(less, t, j, Detach(c));
            Sorted(less, es) && ChildrenWellFormed(less, es)
  {
    var e := Entries(t);
    var n := Sibling(t, j);
    HeadSpliced(less, t, j, c);
    WellFormedLevel(less, t);
    SiblingWellFormed(less, t, j);
    HeadSeqOrder(less, e, j, Entry(e[j].ch, e[j].value, n.next));
  }

  /** `HeadOrder` on the level as a sequence: entry `j` replaced by `x`, with the same
      character and well-formed children, and entry `j + 1` dropped. */
  lemma HeadSeqOrder(less: Less, e: seq<Entry>, j: nat, x: Entry)
    requires Sorted(less, e) && ChildrenWellFormed(less, e) && j < |e|
    requires x.ch == e[j].ch && WellFormed(less, x.child)
    ensures var u := e[j := x];
            var es := if j + 1 < |e| then u[..j + 1] + u[j + 2..] else u;
            Sorted(less, es) && ChildrenWellFormed(less, es)
  {
    var u := e[j := x];
    assert SameChars(e, u);
    SortedSameChars(less, e, u);
    assert ChildrenWellFormed(less, u);
    if j + 1 < |e| {
      RemoveSorted(less, u, j + 1);
      RemoveChildrenWellFormed(less, u, j + 1);
    }
  }

  /** What a head-branch removal at entry `j` of the sorted level `e` leaves under the
      non-empty `rest`: keys through entry `j` now read the entries after it (those that
      order after entry `j`'s character), keys through entry `j + 1` are gone, and all
      other keys are unchanged. */
  lemma HeadLevelLookup(less: Less, e: seq<Entry>, j: nat, x: Entry, rest: seq<char>)
    requires StrictWeakOrder(less) && Sorted(less, e) && j < |e| && |rest| > 0
    requires x.ch == e[j].ch && x.value == e[j].value && Entries(x.child) == e[j + 1..]
    ensures var u := e[j := x];
            LookupIn(less, if j + 1 < |e| then u[..j + 1] + u[j + 2..] else u, rest) ==
              if IsEqual(less, rest[0], e[j].ch) && |rest| > 1 then
                (if IsLess(less, e[j].ch, rest[1]) then LookupIn(less, e, rest[1..]) else Undefined)
              else if j + 1 < |e| && IsEqual(less, rest[0], e[j + 1].ch) then Undefined
              else LookupIn(less, e, rest)
  {
    var u := e[j := x];
    var y := rest[0];
    assert SameChars(e, u);
    SortedSameChars(less, e, u);
    CharOrder.WrapperLaws(less);
    if j + 1 < |e| {
      SortedIndexOf(less, u, e[j + 1].ch, j + 1);
      RemoveKeepsLookup(less, u, e[j + 1].ch, j + 1, rest);
    }
    if IsEqual(less, y, e[j].ch) {
      LookupInAt(less, u, rest, j);
      LookupInAt(less, e, rest, j);
      if j + 1 < |e| {
        CharOrder.LessRespectsEquivalence(less, y, e[j].ch, e[j + 1].ch);
        CharOrder.StrictWeakOrderWrappers(less, y, e[j + 1].ch, y);
      }
      if |rest| > 1 {
        SuffixLookup(less, e, j, rest[1..]);
        assert rest[1..][0] == rest[1];
      }
    } else {
      ReplaceKeepsLookup(less, e, j, x, rest);
    }
  }

  /** Reading the entries after entry `j` of a sorted level: only characters that order
      after entry `j`'s can be found there, and they are found as in the whole level. */
  lemma SuffixLookup(less: Less, e: seq<Entry>, j: nat, key: seq<char>)
    requires StrictWeakOrder(less) && Sorted(less, e) && j < |e| && |key| > 0
    ensures LookupIn(less, e[j + 1..], key) == if IsLess(less, e[j].ch, key[0]) then LookupIn(less, e, key) else Undefined
  {
    var f := e[j + 1..];
    var y := key[0];
    CharOrder.StrictWeakOrderWrappers(less, e[j].ch, y, y);
    if IsLess(less, e[j].ch, y) {
      forall m | 0 <= m <= j ensures !IsEqual(less, e[m].ch, y) {
        NotBefore(less, e, j, y, m);
      }
      match IndexOf(less, e, y) {
        case None =>
          forall m | 0 <= m < |f| ensures !IsEqual(less, f[m].ch, y) {
            assert f[m] == e[m + j + 1];
          }
          LookupInAbsent(less, f, key);
        case Some(h) =>
          assert Sorted(less, f) by {
            forall a, b | 0 <= a < b < |f| ensures less(f[a].ch, f[b].ch) {
              assert f[a] == e[a + j + 1] && f[b] == e[b + j + 1];
            }
          }
          assert f[h - j - 1] == e[h];
          LookupInAt(less, f, key, h - j - 1);
      }
    } else {
      forall m | 0 <= m < |f| ensures !IsEqual(less, f[m].ch, y) {
        assert f[m] == e[m + j + 1];
        CharOrder.LessRespectsEquivalence(less, e[j].ch, f[m].ch, y);
      }
      LookupInAbsent(less, f, key);
    }
  }

  /** No entry up to `j` is equivalent to a character ordering after entry `j`'s. */
  lemma NotBefore(less: Less, e: seq<Entry>, j: nat, y: char, m: nat)
    requires StrictWeakOrder(less) && Sorted(less, e) && m <= j < |e| && less(e[j].ch, y)
    ensures !IsEqual(less, e[m].ch, y)
  {
    CharOrder.StrictWeakOrderWrappers(less, e[m].ch, y, y);
    CharOrder.StrictWeakOrderWrappers(less, e[j].ch, y, y);
    if m < j {
      CharOrder.LessRespectsEquivalence(less, y, e[m].ch, e[j].ch);
      CharOrder.StrictWeakOrderWrappers(less, y, e[m].ch, y);
    }
  }

  /** The second branch of `removeBrother` at the `j`-th node when it finds nothing:
      the level is unchanged. */
  lemma SiblingKept(less: Less, t: Tree, j: nat, c: char)
    requires j < |Entries(t)| && !HeadMatches(less, Sibling(t, j), c)
    requires RemoveBrother(less, Sibling(t, j), c).removed.None?
    ensures Spliced(less, t, j, Detach(c)) == Entries(t)
  {
    KeptNode(less, Sibling(t, j), c);
    SplicedUnchanged(less, t, j, Detach(c));
  }

  /** `removeBrother` leaves a node that it removes nothing from as it was. */
  lemma KeptNode(less: Less, n: Tree, c: char)
    requires n.Node? && RemoveBrother(less, n, c).removed.None?
    ensures Apply(less, n, Detach(c)).node == n
  {
  }

  /** The second branch of `removeBrother` at the `j`-th node when it removes a node:
      the search ran along the nodes after it on the same level, and the level lost the
      entry `j2` places after them. */
  lemma SiblingCut(less: Less, t: Tree, j: nat, c: char, j2: nat)
    requires j < |Entries(t)| && !HeadMatches(less, Sibling(t, j), c)
    requires RemoveBrother(less, Sibling(t, j), c).removed.Some?
    requires j2 == IndexOf(less, Entries(Sibling(t, j).next), c).value
    ensures j + 1 + j2 < |Entries(t)| && IsEqual(less, Entries(t)[j + 1 + j2].ch, c)
    ensures Spliced(less, t, j, Detach(c)) == Entries(t)[..j + 1 + j2] + Entries(t)[j + 2 + j2..]
  {
    var e := Entries(t);
    var n := Sibling(t, j);
    NextEntries(t, j);
    var a := Entries(Apply(less, n, Detach(c)).node);
    var f := Entries(n.next);
    SiblingNode(less, n, c);
    assert EntryOf(n) == e[j];
    SiblingSeq(e, j, j2, a, f);
    assert f[j2] == e[j + 1 + j2];
  }

  /** The level the second branch of `removeBrother` at the `j`-th node leaves: the level
      without the entry `h` for `c` when it found one, the level unchanged otherwise. */
  lemma SiblingLevel(less: Less, t: Tree, j: nat, c: char) returns (h: nat)
    requires j < |Entries(t)| && !HeadMatches(less, Sibling(t, j), c)
    ensures RemoveBrother(less, Sibling(t, j), c).removed.Some? ==>
              && h < |Entries(t)| && IsEqual(less, Entries(t)[h].ch, c)
              && Spliced(less, t, j, Detach(c)) == Entries(t)[..h] + Entries(t)[h + 1..]
    ensures RemoveBrother(less, Sibling(t, j), c).removed.None? ==> Spliced(less, t, j, Detach(c)) == Entries(t)
  {
    h := 0;
    if RemoveBrother(less, Sibling(t, j), c).removed.Some? {
      var j2: nat := IndexOf(less, Entries(Sibling(t, j).next), c).value;
      SiblingCut(less, t, j, c, j2);
      h := j + 1 + j2;
    } else {
      SiblingKept(less, t, j, c);
    }
  }

  /** The node the second branch of `removeBrother` leaves, read as a level, when it
      removes a node. */
  lemma SiblingNode(less: Less, n: Tree, c: char)
    requires n.Node? && !HeadMatches(less, n, c) && RemoveBrother(less, n, c).removed.Some?
    ensures var j2 := IndexOf(less, Entries(n.next), c).value;
            Entries(Apply(less, n, Detach(c)).node) == [EntryOf(n)] + (Entries(n.next)[..j2] + Entries(n.next)[j2 + 1..])
  {
    EntriesCons(Apply(less, n, Detach(c)).node);
  }

  lemma SiblingSeq(e: seq<Entry>, j: nat, j2: nat, a: seq<Entry>, f: seq<Entry>)
    requires j + 1 + j2 < |e| && f == e[j + 1..] && a == [e[j]] + (f[..j2] + f[j2 + 1..])
    ensures e[..j] + a == e[..j + 1 + j2] + e[j + 2 + j2..]
  {
    assert e[..j] + [e[j]] + e[j + 1..][..j2] == e[..j + 1 + j2];
    assert e[j + 1..][j2 + 1..] == e[j + 2 + j2..];
  }

  // ---------------------------------------------------------------------------------
  // Values

  /** The value stored under `k` once `removeBrother` has taken its first branch at the
      node for `p`, whose next sibling was `next`, in terms of the trie `t` before. At the
      root (empty `p`) every key but the empty one loses its value. Below it, with `q`
      the key of `p`'s parent and `x` the last character of `p`: a key `p + rest` now
      reads what `q + rest` stored when `rest` starts with a character ordering after
      `x` (the nodes after `p`'s became its children), and nothing otherwise; keys through
      `next` lost their values; everything else is unchanged. */
  function HeadRemoved(less: Less, t: Trie, p: seq<char>, next: Tree, k: seq<char>): int {
    if |p| == 0 then (if |k| == 0 then Value(less, t, k) else Undefined)
    else
      var q := p[..|p| - 1];
      if HasKeyPrefix(less, k, p) && |k| > |p| then
        (if IsLess(less, p[|p| - 1], k[|p|]) then Value(less, t, q + k[|p|..]) else Undefined)
      else if next.Node? && HasKeyPrefix(less, k, q + [next.ch]) then Undefined
      else Value(less, t, k)
  }

  /** `HeadRemoved` reads the trie only through its values. */
  lemma HeadRemovedSameValues(less: Less, t1: Trie, t2: Trie, p: seq<char>, next: Tree)
    requires forall k :: Value(less, t1, k) == Value(less, t2, k)
    ensures forall k :: HeadRemoved(less, t1, p, next, k) == HeadRemoved(less, t2, p, next, k)
  {
  }

  /** `removeBrother` on the root, whose `next` is null: the first branch leaves a root
      without children, the second finds nothing to remove. */
  lemma RootRemoval(less: Less, root: Tree, c: char)
    requires root.Node? && root.next.Nil? && WellFormed(less, root)
    ensures var a := RemoveBrother(less, root, c);
            && a.node.Node? && a.node.ch == root.ch && a.node.next.Nil? && WellFormed(less, a.node)
            && (HeadMatches(less, root, c) ==>
                  forall k :: Value(less, Trie(a.node), k) == HeadRemoved(less, Trie(root), [], root.next, k))
            && (!HeadMatches(less, root, c) ==> a == Detached(root, None))
  {
    var a := RemoveBrother(less, root, c);
    if HeadMatches(less, root, c) {
      assert a.node == root.(child := Nil, next := Nil);
      forall k ensures Value(less, Trie(a.node), k) == HeadRemoved(less, Trie(root), [], root.next, k) {
        if |k| > 0 {
          assert Entries(a.node.child) == [];
          assert IndexOf(less, Entries(a.node.child), k[0]).None?;
          assert Lookup(less, a.node, k) == LookupIn(less, [], k);
        }
      }
    }
  }

  /** The as-written removal below the root, in terms of the plain walk `w` to the node
      for `p` (non-empty): the tree stays well formed; if `removeBrother(c)` takes its
      first branch there, values change as `HeadRemoved` says; otherwise exactly the keys
      through the removed sibling of `p`'s node lose their values. */
  lemma RemovalValues(less: Less, root: Tree, p: seq<char>, c: char)
    requires StrictWeakOrder(less) && root.Node? && WellFormed(less, root) && |p| > 0
    ensures var w := GetNode(less, root, p, false, Keep);
            var r := GetNode(less, root, p, false, Detach(c));
            && WellFormed(less, r.tree)
            && (|w.path| > 0 && HeadMatches(less, w.path[|p|], c) ==>
                  forall k :: Value(less, Trie(r.tree), k) == HeadRemoved(less, Trie(w.tree), p, w.path[|p|].next, k))
            && (!(|w.path| > 0 && HeadMatches(less, w.path[|p|], c)) ==>
                  forall k :: Value(less, Trie(r.tree), k) ==
                    if r.detached.Some? && HasKeyPrefix(less, k, p[..|p| - 1] + [c]) then Undefined
                    else Value(less, Trie(w.tree), k))
  {
    var w := GetNode(less, root, p, false, Keep);
    var r := GetNode(less, root, p, false, Detach(c));
    var m, j := GetNodeGraft(less, root, p, false, Detach(c));
    var m', j' := GetNodeGraft(less, root, p, false, Keep);
    GetNodeFusion(less, root, p, false, Detach(c));
    if |w.path| == 0 {
      ContentsDescribed(less, root, p, false, Keep);
    } else {
      assert m' == m && j' == j;
      ReachedValues(less, p, c, w, r, m, j);
    }
  }

  /** `RemovalValues` once the walk reached the node for `p`, the `j`-th node of `m`'s
      child level. */
  lemma ReachedValues(less: Less, p: seq<char>, c: char, w: Located, r: Located, m: Tree, j: nat)
    requires StrictWeakOrder(less) && |p| > 0 && |w.path| > 0
    requires Grafted(less, p, Keep, w, w, m, j) && Grafted(less, p, Detach(c), w, r, m, j)
    requires Fused(less, Detach(c), r, w)
    ensures WellFormed(less, r.tree)
    ensures HeadMatches(less, w.path[|p|], c) ==>
              forall k :: Value(less, Trie(r.tree), k) == HeadRemoved(less, Trie(w.tree), p, w.path[|p|].next, k)
    ensures !HeadMatches(less, w.path[|p|], c) ==>
              forall k :: Value(less, Trie(r.tree), k) ==
                if r.detached.Some? && HasKeyPrefix(less, k, p[..|p| - 1] + [c]) then Undefined
                else Value(less, Trie(w.tree), k)
  {
    SplicedKeep(less, m.child, j);
    if HeadMatches(less, w.path[|p|], c) {
      HeadValues(less, p, c, m.child, j, w.tree, r.tree);
    } else {
      SiblingValues(less, p[..|p| - 1], c, m.child, j, r.detached.Some?, w.tree, r.tree);
    }
  }

  /** `RemovalValues` when `removeBrother` takes its first branch at the `j`-th node of
      the level `t`, the node for `p`. */
  lemma HeadValues(less: Less, p: seq<char>, c: char, t: Tree, j: nat, wt: Tree, rt: Tree)
    requires StrictWeakOrder(less) && |p| > 0 && WellFormed(less, t) && j < |Entries(t)|
    requires IndexOf(less, Entries(t), p[|p| - 1]) == Some(j) && HeadMatches(less, Sibling(t, j), c)
    requires GraftedLevel(less, p[..|p| - 1], Entries(t), wt, wt)
    requires GraftedLevel(less, p[..|p| - 1], Spliced(less, t, j, Detach(c)), wt, rt)
    ensures WellFormed(less, rt)
    ensures forall k :: Value(less, Trie(rt), k) == HeadRemoved(less, Trie(wt), p, Sibling(t, j).next, k)
  {
    var e := Entries(t);
    var n := Sibling(t, j);
    HeadOrder(less, t, j, c);
    HeadSpliced(less, t, j, c);
    NextEntries(t, j);
    WellFormedLevel(less, t);
    HeadLevelValues(less, p, e, j, Entry(e[j].ch, e[j].value, n.next), Spliced(less, t, j, Detach(c)), wt, rt);
  }

  /** `HeadValues` on the level as a sequence: `es` is `e` with entry `j` replaced by
      `x`, whose children are the entries after it, and entry `j + 1` dropped. */
  lemma HeadLevelValues(less: Less, p: seq<char>, e: seq<Entry>, j: nat, x: Entry, es: seq<Entry>, wt: Tree, rt: Tree)
    requires StrictWeakOrder(less) && |p| > 0 && Sorted(less, e) && j < |e| && IsEqual(less, e[j].ch, p[|p| - 1])
    requires x.ch == e[j].ch && x.value == e[j].value && Entries(x.child) == e[j + 1..]
    requires x.child.Node? <==> j + 1 < |e|
    requires j + 1 < |e| ==> x.child.ch == e[j + 1].ch
    requires es == var u := e[j := x]; if j + 1 < |e| then u[..j + 1] + u[j + 2..] else u
    requires GraftedLevel(less, p[..|p| - 1], e, wt, wt) && GraftedLevel(less, p[..|p| - 1], es, wt, rt)
    ensures forall k :: Value(less, Trie(rt), k) == HeadRemoved(less, Trie(wt), p, x.child, k)
  {
    forall k ensures Value(less, Trie(rt), k) == HeadRemoved(less, Trie(wt), p, x.child, k) {
      HeadStep(less, p, e, j, x, es, wt, rt, k);
    }
  }

  /** One key's value in `HeadLevelValues`, from the two level facts. */
  lemma HeadStep(less: Less, p: seq<char>, e: seq<Entry>, j: nat, x: Entry, es: seq<Entry>, wt: Tree, rt: Tree, k: seq<char>)
    requires StrictWeakOrder(less) && |p| > 0 && Sorted(less, e) && j < |e| && IsEqual(less, e[j].ch, p[|p| - 1])
    requires x.ch == e[j].ch && x.value == e[j].value && Entries(x.child) == e[j + 1..]
    requires x.child.Node? <==> j + 1 < |e|
    requires j + 1 < |e| ==> x.child.ch == e[j + 1].ch
    requires es == var u := e[j := x]; if j + 1 < |e| then u[..j + 1] + u[j + 2..] else u
    requires GraftedLevel(less, p[..|p| - 1], e, wt, wt) && GraftedLevel(less, p[..|p| - 1], es, wt, rt)
    ensures Value(less, Trie(rt), k) == HeadRemoved(less, Trie(wt), p, x.child, k)
  {
    var q := p[..|p| - 1];
    if |k| > |q| {
      HeadLevelLookup(less, e, j, x, k[|q|..]);
    }
    if |k| > |p| {
      ShiftedKey(less, q, e, wt, k[|p|..]);
    }
    HeadKey(less, p, e, j, es, x.child, wt, rt, k);
  }

  /** Below the level `e` grafted at `q`, the key `q + rest` reads `rest` in `e`. */
  lemma ShiftedKey(less: Less, q: seq<char>, e: seq<Entry>, wt: Tree, rest: seq<char>)
    requires |rest| > 0 && GraftedLevel(less, q, e, wt, wt)
    ensures Lookup(less, wt, q + rest) == LookupIn(less, e, rest)
  {
    var k' := q + rest;
    assert k'[..|q|] == q && k'[|q|..] == rest;
    assert HasKeyPrefix(less, k', q);
  }

  /** One key's value in `HeadValues`. */
  lemma HeadKey(less: Less, p: seq<char>, e: seq<Entry>, j: nat, es: seq<Entry>, next: Tree, wt: Tree, rt: Tree, k: seq<char>)
    requires StrictWeakOrder(less) && |p| > 0 && Sorted(less, e) && j < |e| && IsEqual(less, e[j].ch, p[|p| - 1])
    requires wt.Node? && rt.Node?
    requires next.Node? <==> j + 1 < |e|
    requires j + 1 < |e| ==> next.ch == e[j + 1].ch
    requires var q := p[..|p| - 1];
             Lookup(less, rt, k) ==
               if HasKeyPrefix(less, k, q) && |k| > |q| then LookupIn(less, es, k[|q|..]) else Lookup(less, wt, k)
    requires var q := p[..|p| - 1];
             HasKeyPrefix(less, k, q) && |k| > |q| ==> Lookup(less, wt, k) == LookupIn(less, e, k[|q|..])
    requires |k| > |p| ==> Lookup(less, wt, p[..|p| - 1] + k[|p|..]) == LookupIn(less, e, k[|p|..])
    requires var q := p[..|p| - 1];
             |k| > |q| ==>
               var rest := k[|q|..];
               LookupIn(less, es, rest) ==
                 if IsEqual(less, rest[0], e[j].ch) && |rest| > 1 then
                   (if IsLess(less, e[j].ch, rest[1]) then LookupIn(less, e, rest[1..]) else Undefined)
                 else if j + 1 < |e| && IsEqual(less, rest[0], e[j + 1].ch) then Undefined
                 else LookupIn(less, e, rest)
    ensures Value(less, Trie(rt), k) == HeadRemoved(less, Trie(wt), p, next, k)
  {
    var q := p[..|p| - 1];
    var x := p[|p| - 1];
    HasKeyPrefixSplit(less, k, p);
    if next.Node? {
      HasKeyPrefixSplit(less, k, q + [next.ch]);
      assert (q + [next.ch])[..|q|] == q;
    }
    if HasKeyPrefix(less, k, q) && |k| > |q| {
      var rest := k[|q|..];
      assert rest[0] == k[|p| - 1];
      CharOrder.WrapperLaws(less);
      CharOrder.StrictWeakOrderWrappers(less, rest[0], e[j].ch, x);
      CharOrder.StrictWeakOrderWrappers(less, rest[0], x, e[j].ch);
      if j + 1 < |e| {
        CharOrder.LessRespectsEquivalence(less, rest[0], e[j].ch, e[j + 1].ch);
        CharOrder.StrictWeakOrderWrappers(less, rest[0], e[j + 1].ch, rest[0]);
      }
      if |rest| > 1 {
        assert rest[1] == k[|p|] && rest[1..] == k[|p|..];
        CharOrder.StrictWeakOrderWrappers(less, e[j].ch, rest[1], rest[1]);
        CharOrder.StrictWeakOrderWrappers(less, x, rest[1], rest[1]);
        CharOrder.LessRespectsEquivalence(less, x, e[j].ch, rest[1]);
        CharOrder.StrictWeakOrderWrappers(less, x, e[j].ch, x);
        CharOrder.LessRespectsEquivalence(less, e[j].ch, x, rest[1]);
      }
    }
  }

  /** `RemovalValues` when `removeBrother` searches the nodes after the `j`-th node of
      the level `t`, the node reached; `removed` says whether it found one for `c`. */
  lemma SiblingValues(less: Less, q: seq<char>, c: char, t: Tree, j: nat, removed: bool, wt: Tree, rt: Tree)
    requires StrictWeakOrder(less) && WellFormed(less, t) && j < |Entries(t)|
    requires !HeadMatches(less, Sibling(t, j), c) && removed == RemoveBrother(less, Sibling(t, j), c).removed.Some?
    requires GraftedLevel(less, q, Entries(t), wt, wt)
    requires GraftedLevel(less, q, Spliced(less, t, j, Detach(c)), wt, rt)
    ensures WellFormed(less, rt)
    ensures forall k :: Value(less, Trie(rt), k) ==
              if removed && HasKeyPrefix(less, k, q + [c]) then Undefined else Value(less, Trie(wt), k)
  {
    var e := Entries(t);
    WellFormedLevel(less, t);
    var h := SiblingLevel(less, t, j, c);
    if removed {
      RemoveSorted(less, e, h);
      RemoveChildrenWellFormed(less, e, h);
    }
    SiblingLevelValues(less, q, c, removed, e, h, Spliced(less, t, j, Detach(c)), wt, rt);
  }

  /** `SiblingValues` on the level as a sequence: `es` is `e`, or `e` without its entry
      `h` for `c`. */
  lemma SiblingLevelValues(less: Less, q: seq<char>, c: char, removed: bool, e: seq<Entry>, h: nat, es: seq<Entry>,
                           wt: Tree, rt: Tree)
    requires StrictWeakOrder(less) && Sorted(less, e)
    requires removed ==> h < |e| && IsEqual(less, e[h].ch, c) && es == e[..h] + e[h + 1..]
    requires !removed ==> es == e
    requires GraftedLevel(less, q, e, wt, wt) && GraftedLevel(less, q, es, wt, rt)
    ensures forall k :: Value(less, Trie(rt), k) ==
              if removed && HasKeyPrefix(less, k, q + [c]) then Undefined else Value(less, Trie(wt), k)
  {
    forall k ensures Value(less, Trie(rt), k) ==
                     if removed && HasKeyPrefix(less, k, q + [c]) then Undefined else Value(less, Trie(wt), k) {
      SiblingStep(less, q, c, removed, e, h, es, wt, rt, k);
    }
  }

  /** One key's value in `SiblingValues`, from the two level facts. */
  lemma SiblingStep(less: Less, q: seq<char>, c: char, removed: bool, e: seq<Entry>, h: nat, es: seq<Entry>,
                    wt: Tree, rt: Tree, k: seq<char>)
    requires StrictWeakOrder(less) && Sorted(less, e)
    requires removed ==> h < |e| && IsEqual(less, e[h].ch, c) && es == e[..h] + e[h + 1..]
    requires !removed ==> es == e
    requires GraftedLevel(less, q, e, wt, wt) && GraftedLevel(less, q, es, wt, rt)
    ensures Value(less, Trie(rt), k) == if removed && HasKeyPrefix(less, k, q + [c]) then Undefined else Value(less, Trie(wt), k)
  {
    if |k| > |q| && removed {
      SortedIndexOf(less, e, c, h);
      RemoveKeepsLookup(less, e, c, h, k[|q|..]);
    }
    SiblingKey(less, q, c, removed, e, es, wt, rt, k);
  }

  /** One key's value in `SiblingValues`. */
  lemma SiblingKey(less: Less, q: seq<char>, c: char, removed: bool, e: seq<Entry>, es: seq<Entry>, wt: Tree, rt: Tree, k: seq<char>)
    requires wt.Node? && rt.Node?
    requires Lookup(less, rt, k) ==
               if HasKeyPrefix(less, k, q) && |k| > |q| then LookupIn(less, es, k[|q|..]) else Lookup(less, wt, k)
    requires HasKeyPrefix(less, k, q) && |k| > |q| ==> Lookup(less, wt, k) == LookupIn(less, e, k[|q|..])
    requires !removed ==> es == e
    requires removed && |k| > |q| ==>
               LookupIn(less, es, k[|q|..]) == if IsEqual(less, k[|q|..][0], c) then Undefined else LookupIn(less, e, k[|q|..])
    ensures Value(less, Trie(rt), k) == if removed && HasKeyPrefix(less, k, q + [c]) then Undefined else Value(less, Trie(wt), k)
  {
    HasKeyPrefixSplit(less, k, q + [c]);
    assert (q + [c])[..|q|] == q;
    if |k| > |q| {
      assert k[|q|..][0] == k[|q|];
    }
  }
}
