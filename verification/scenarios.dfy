/** Small concrete tries under the default case-insensitive comparator: the behaviour a
    user of the container sees, and the inputs that show where the code departs from
    what it evidently means to do. */
module Scenarios {
  import opened Options
  import opened CStrings
  import opened CharOrder
  import opened Nodes
  import opened Contents
  import opened Iterators
  import opened Walks
  import opened Tries
  import K = KeyStrings
  import F = FixedLenStrings

  /** A key held in a `StringOfCharsFixedLen`. */
  function Str(s: string): (k: K.StringOfChars)
    ensures K.Valid(k) && K.Chars(k) == s
  {
    K.FixedLenKey(F.FixedLen(s))
  }

  /** Keys that differ only in ASCII case designate the same node: in any trie, adding
      "alfa" and then "aLfa" overwrites, `find` answers the second value under any
      spelling, and a key that differs in a letter keeps what it had. */
  lemma CaseInsensitiveOverwrite(t: Trie)
    requires Valid(CompareNoCase, t)
    ensures var t1 := AddKeyValue(CompareNoCase, t, Str("alfa"), 1).trie;
            var t2 := AddKeyValue(CompareNoCase, t1, Str("aLfa"), 2).trie;
            && Find(CompareNoCase, t2, Str("ALFA")).value == 2
            && Find(CompareNoCase, t2, Str("alfb")).value == Find(CompareNoCase, t, Str("alfb")).value
  {
    CompareNoCaseOrder();
    var t1 := AddKeyValue(CompareNoCase, t, Str("alfa"), 1).trie;
    AddKeyValueContents(CompareNoCase, t, Str("alfa"), 1);
    AddThenFind(CompareNoCase, t, Str("alfa"), 1, Str("alfb"));
    AddThenFind(CompareNoCase, t1, Str("aLfa"), 2, Str("ALFA"));
    AddThenFind(CompareNoCase, t1, Str("aLfa"), 2, Str("alfb"));
    CaseFacts();
  }

  /** Which of the scenario's keys the comparator tells apart. */
  lemma CaseFacts()
    ensures KeyEquiv(CompareNoCase, "ALFA", "aLfa")
    ensures !KeyEquiv(CompareNoCase, "alfb", "aLfa") && !KeyEquiv(CompareNoCase, "alfb", "alfa")
  {
    CompareNoCaseOrder();
    assert !IsEqual(CompareNoCase, "alfb"[3], "aLfa"[3]);
    assert !IsEqual(CompareNoCase, "alfb"[3], "alfa"[3]);
  }

  /** The trie holding "a" -> 1 and "b" -> 2: the root's child chain is `a`, `b`. */
  const SiblingsAB: Trie := Trie(Node(Nul, Undefined, Nil, Node('a', 1, Node('b', 2, Nil, Nil), Nil)))

  /** The trie holding "xa" -> 1 and "y" -> 2: the node for "x" has the child `a` and
      the next sibling `y`. */
  const ChildAndSibling: Trie :=
    Trie(Node(Nul, Undefined, Nil, Node('x', Undefined, Node('y', 2, Nil, Nil), Node('a', 1, Nil, Nil))))

  /** `removeKey` as written on "a" -> 1, "b" -> 2: removing "b" fails and keeps it,
      removing "a" succeeds and takes "b" with it. The intended removal of "b" removes
      exactly "b". On "xa" -> 1, "y" -> 2, removing "xa" leaves only "xy" -> 2: the
      sibling `y` of `x` became its child. */
  lemma RemoveKeyExample()
    ensures Valid(CompareNoCase, SiblingsAB)
    ensures Value(CompareNoCase, SiblingsAB, "a") == 1 && Value(CompareNoCase, SiblingsAB, "b") == 2
    ensures var r := RemoveKey(CompareNoCase, SiblingsAB, Str("b"));
            !r.done && Value(CompareNoCase, r.trie, "b") == 2
    ensures var r := RemoveKey(CompareNoCase, SiblingsAB, Str("a"));
            r.done && Value(CompareNoCase, r.trie, "a") == Undefined && Value(CompareNoCase, r.trie, "b") == Undefined
    ensures var r := RemoveKeyIntended(CompareNoCase, SiblingsAB, Str("b"));
            r.done && Value(CompareNoCase, r.trie, "a") == 1 && Value(CompareNoCase, r.trie, "b") == Undefined
    ensures Valid(CompareNoCase, ChildAndSibling)
    ensures Value(CompareNoCase, ChildAndSibling, "xa") == 1 && Value(CompareNoCase, ChildAndSibling, "y") == 2
    ensures var r := RemoveKey(CompareNoCase, ChildAndSibling, Str("xa"));
            && r.done && Value(CompareNoCase, r.trie, "xy") == 2
            && Value(CompareNoCase, r.trie, "xa") == Undefined && Value(CompareNoCase, r.trie, "y") == Undefined
  {
    ChildAndSiblingStored();
    ChildAndSiblingRemoval();
    var es := Entries(SiblingsAB.root.child);
    assert es == [Entry('a', 1, Nil), Entry('b', 2, Nil)];
    assert !IsEqual(CompareNoCase, 'a', 'b');
    assert IndexOf(CompareNoCase, es[1..], 'b') == Some(0);
  }

  /** What `ChildAndSibling` stores. */
  lemma ChildAndSiblingStored()
    ensures Valid(CompareNoCase, ChildAndSibling)
    ensures Value(CompareNoCase, ChildAndSibling, "xa") == 1 && Value(CompareNoCase, ChildAndSibling, "y") == 2
  {
    var y := Node('y', 2, Nil, Nil);
    var x := Node('x', Undefined, y, Node('a', 1, Nil, Nil));
    assert Entries(ChildAndSibling.root.child) == [Entry('x', Undefined, x.child), Entry('y', 2, Nil)];
    var es := Entries(ChildAndSibling.root.child);
    assert !IsEqual(CompareNoCase, 'y', 'x');
    assert IndexOf(CompareNoCase, es[1..], 'y') == Some(0);
    assert Entries(x.child) == [Entry('a', 1, Nil)];
  }

  /** `removeKey("xa")` on `ChildAndSibling`, as written. */
  lemma ChildAndSiblingRemoval()
    ensures var r := RemoveKey(CompareNoCase, ChildAndSibling, Str("xa"));
            && r.done && Value(CompareNoCase, r.trie, "xy") == 2
            && Value(CompareNoCase, r.trie, "xa") == Undefined && Value(CompareNoCase, r.trie, "y") == Undefined
  {
    var y := Node('y', 2, Nil, Nil);
    var x := Node('x', Undefined, y, Node('a', 1, Nil, Nil));
    var root := ChildAndSibling.root;
    assert IsEqual(CompareNoCase, 'x', 'x') && IsEqual(CompareNoCase, 'a', 'a');
    var l := Prepare(CompareNoCase, root, 'x', false);
    assert l == Level(root, x, Some(0), false);
    var w := GetNode(CompareNoCase, x, [], false, Detach('a'));
    assert w.tree == Node('x', Undefined, Nil, y) && w.detached.Some?;
    var r := RemoveKey(CompareNoCase, ChildAndSibling, Str("xa"));
    assert "xa"[..1] == "x" && "x"[1..] == [];
    assert r.trie.root == Node(Nul, Undefined, Nil, Node('x', Undefined, Nil, y));
    assert Entries(r.trie.root.child) == [Entry('x', Undefined, y)];
    assert Entries(y) == [Entry('y', 2, Nil)];
  }

  /** The trie holding "a" -> 1 and "ab" -> 2. */
  const Nested: Trie := Trie(Node(Nul, Undefined, Nil, Node('a', 1, Nil, Node('b', 2, Nil, Nil))))

  /** Iterating "a" -> 1, "ab" -> 2 from `cbegin()` to `cend()`: as written "a" comes
      again after "ab"; with the intended advance each pair comes once. */
  lemma EnumerateExample()
    ensures Run(CBegin(Nested)) == [Item("a", 1), Item("ab", 2), Item("a", 1)]
    ensures RunIntended(CBeginIntended(Nested)) == [Item("a", 1), Item("ab", 2)]
  {
    EnumerateAsWritten(Nested);
    EnumerateIntended(Nested);
    NestedItems();
  }

  /** The pairs of the root's child chain of `Nested`, both ways. */
  lemma NestedItems()
    ensures ItemsAsWritten(Nested.root.child, []) + Here([], Undefined) == [Item("a", 1), Item("ab", 2), Item("a", 1)]
    ensures Items(Nested.root.child, []) == [Item("a", 1), Item("ab", 2)]
  {
    var b := Node('b', 2, Nil, Nil);
    LeafItems("a", 'b', 2);
    assert Extend([], 'a') == "a" && Extend("a", 'b') == "ab";
    assert ItemsAsWritten(Node('a', 1, Nil, b), []) == [Item("a", 1)] + [Item("ab", 2)] + [Item("a", 1)] + [];
    assert Items(Node('a', 1, Nil, b), []) == [Item("a", 1)] + [Item("ab", 2)] + [];
  }

  /** A node with no child and no next sibling contributes its own pair, if any. */
  lemma LeafItems(prefix: seq<char>, c: char, v: int)
    ensures ItemsAsWritten(Node(c, v, Nil, Nil), prefix) == Here(Extend(prefix, c), v)
    ensures Items(Node(c, v, Nil, Nil), prefix) == Here(Extend(prefix, c), v)
  {
    assert Here(Extend(prefix, c), v) + [] + [] == Here(Extend(prefix, c), v);
  }

  /** The trie holding only "ab" -> 1: the node for "a" holds no value. */
  const Deep: Trie := Trie(Node(Nul, Undefined, Nil, Node('a', Undefined, Nil, Node('b', 1, Nil, Nil))))

  /** Iterating from `lower_bound("ab")` in the trie holding only "ab" -> 1: the
      iterator as written visits "ab" three times, once per ancestor that re-enters its
      child chain; with the intended frames it visits it once. */
  lemma LowerBoundExample()
    ensures Run(LowerBound(CompareNoCase, Deep, Str("ab")).it) == [Item("ab", 1), Item("ab", 1), Item("ab", 1)]
    ensures RunIntended(LowerBoundIntended(CompareNoCase, Deep, Str("ab")).it) == [Item("ab", 1)]
  {
    DeepWalk();
    DeepRunAsWritten();
    DeepRunIntended();
    var root := Deep.root;
    DeepFrames(root, root.child, root.child.child);
  }

  /** The frames `lower_bound` builds for a path of three nodes, as written and intended. */
  lemma DeepFrames(n0: Tree, n1: Tree, n2: Tree)
    requires n0.Node? && n1.Node? && n2.Node?
    ensures FromNodes([n0, n1, n2]) == [Frame(n0, true), Frame(n1, true), Frame(n2, true)]
    ensures PathFrames([n0, n1, n2]) == [Frame(n0, false), Frame(n1, false), Frame(n2, true)]
  {
    var nodes := [n0, n1, n2];
    assert nodes[..2] == [n0, n1] && nodes[..2][..1] == [n0] && [n0][..0] == [];
  }

  lemma DeepWalk()
    ensures var root := Deep.root;
            Walk(CompareNoCase, Deep, "ab", false, Keep).path == [root, root.child, root.child.child]
  {
    var root := Deep.root;
    var a := root.child;
    var b := a.child;
    assert GetNode(CompareNoCase, b, [], false, Keep).path == [b];
    assert GetBrother(CompareNoCase, b, 'b', false) == Brother(b, Some(0), false);
    assert GetNode(CompareNoCase, a, "b", false, Keep).path == [a, b];
    assert GetBrother(CompareNoCase, a, 'a', false) == Brother(a, Some(0), false);
  }

  lemma DeepRunAsWritten()
    ensures var root := Deep.root;
            var p: seq<LiveFrame> := [Frame(root, true), Frame(root.child, true), Frame(root.child.child, true)];
            Run(p) == [Item("ab", 1), Item("ab", 1), Item("ab", 1)]
  {
    var root := Deep.root;
    var a := root.child;
    var p: seq<LiveFrame> := [Frame(root, true), Frame(a, true), Frame(a.child, true)];
    DeepPendingAsWritten();
    RunPendingAsWritten(p);
    assert Run(p) == [Item(Key(p), GetValue(p))] + Run(Advance(p));
  }

  /** The position `lower_bound("ab")` starts at in `Deep`, and what remains pending
      behind it with `operator++` as written. */
  lemma DeepPendingAsWritten()
    ensures var root := Deep.root;
            var p: seq<LiveFrame> := [Frame(root, true), Frame(root.child, true), Frame(root.child.child, true)];
            Key(p) == "ab" && GetValue(p) == 1 && PendingAsWritten(p) == [Item("ab", 1), Item("ab", 1)]
  {
    var root := Deep.root;
    var a := root.child;
    var f0, f1, f2: LiveFrame := Frame(root, true), Frame(a, true), Frame(a.child, true);
    DeepKeys(f0, f1, f2);
    DeepItemsAsWritten();
    SingleFileAsWritten(f0, f1, f2, [Item("ab", 1)]);
    assert [] + [f0] + [f1] + [f2] == [f0, f1, f2];
  }

  /** Three frames on a path of only children, the upper two without values: as written,
      both upper frames re-enter their child chains. */
  lemma SingleFileAsWritten(f0: LiveFrame, f1: LiveFrame, f2: LiveFrame, x: seq<Item>)
    requires f0.toChild && f1.toChild && f2.toChild
    requires f0.node.next.Nil? && f1.node.next.Nil? && f2.node.next.Nil? && f2.node.child.Nil?
    requires f0.node.child.Node? && f1.node.child.Node?
    requires f0.node.value == Undefined && f1.node.value == Undefined
    requires ItemsAsWritten(f0.node.child, Key([] + [f0])) == x
    requires ItemsAsWritten(f1.node.child, Key([] + [f0] + [f1])) == x
    ensures PendingAsWritten([] + [f0] + [f1] + [f2]) == x + x
  {
    var p1: seq<LiveFrame> := [] + [f0];
    var p2 := p1 + [f1];
    UpperFrameAsWritten([], f0, x, []);
    UpperFrameAsWritten(p1, f1, x, x + []);
    PendingAsWrittenPush(p2, f2);
    TopAsWrittenPush(p2, f2);
    assert TopAsWritten(p2 + [f2]) == [];
    assert x + (x + []) == x + x;
  }

  /** A frame bound for its child chain, without a value and without later siblings, below
      the top: as written it is returned to after its children and re-enters them. */
  lemma UpperFrameAsWritten(below: seq<LiveFrame>, f: LiveFrame, x: seq<Item>, rest: seq<Item>)
    requires f.toChild && f.node.next.Nil? && f.node.child.Node? && f.node.value == Undefined
    requires ItemsAsWritten(f.node.child, Key(below + [f])) == x && BelowAsWritten(below) == rest
    ensures BelowAsWritten(below + [f]) == x + rest
  {
    BelowAsWrittenPush(below, f);
    TopAsWrittenPush(below, f);
    AtTopPush(below, f);
    KeyPush(below, f);
    assert AtTop(below + [f]) == [];
    assert TopAsWritten(below + [f]) == x;
  }

  lemma DeepKeys(f0: LiveFrame, f1: LiveFrame, f2: LiveFrame)
    requires f0.node.ch == Nul && f1.node.ch == 'a' && f2.node.ch == 'b'
    ensures Key([] + [f0]) == [] && Key([] + [f0] + [f1]) == "a" && Key([] + [f0] + [f1] + [f2]) == "ab"
  {
    KeyPush([], f0);
    KeyPush([] + [f0], f1);
    KeyPush([] + [f0] + [f1], f2);
  }

  /** The pairs of `Deep` below the root and below "a" with `operator++` as written. */
  lemma DeepItemsAsWritten()
    ensures ItemsAsWritten(Deep.root.child, []) == [Item("ab", 1)]
    ensures ItemsAsWritten(Deep.root.child.child, "a") == [Item("ab", 1)]
  {
    LeafItems("a", 'b', 1);
    assert Extend([], 'a') == "a" && Extend("a", 'b') == "ab";
    assert ItemsAsWritten(Deep.root.child, []) == [] + [Item("ab", 1)] + [] + [];
  }

  lemma DeepRunIntended()
    ensures var root := Deep.root;
            var q: seq<LiveFrame> := [Frame(root, false), Frame(root.child, false), Frame(root.child.child, true)];
            RunIntended(q) == [Item("ab", 1)]
  {
    var root := Deep.root;
    var q: seq<LiveFrame> := [Frame(root, false), Frame(root.child, false), Frame(root.child.child, true)];
    var q1, q2 := q[..1], q[..2];
    assert q2[..1] == q1 && q1[..0] == [];
    assert Key(q1) == [] && Key(q2) == "a" && Key(q) == "ab";
    RunIntendedPending(q);
    assert Pending(q1) == [] && Pending(q2) == [];
    assert Pending(q) == [];
  }
}
