/** `const_iterator` (CharTrie/TrieData.h): a stack of frames, one per level from the
    root down to the current node, each remembering whether its node's child chain is
    still to be entered. The last frame is the top of the stack. The tree does not
    change while an iterator walks it, so frames hold node values. */
module Iterators {
  import opened CStrings
  import opened Nodes
  import opened CharOrder
  import Z = ZeroEndStrings

  /** `TrieLevelInfo`: `bToChild` starts out true. */
  datatype Frame = Frame(node: Tree, toChild: bool)

  /** A frame on the stack always designates a node; only the empty stack is the end
      iterator. */
  type LiveFrame = f: Frame | f.node.Node? witness Frame(Node(Nul, Undefined, Nil, Nil), true)

  /** The iterator constructed from the node path of `intGetNode` (lines 756-765): one
      fresh frame per node, so every frame still has its child chain to enter. */
  function FromNodes(nodes: seq<Tree>): (p: seq<LiveFrame>)
    requires forall m :: 0 <= m < |nodes| ==> nodes[m].Node?
    ensures |p| == |nodes|
    ensures forall m :: 0 <= m < |p| ==> p[m].node == nodes[m] && p[m].toChild
  {
    if |nodes| == 0 then [] else FromNodes(nodes[..|nodes| - 1]) + [Frame(nodes[|nodes| - 1], true)]
  }

  /** The three things one pass of the inner loop of `operator++` can do. */
  datatype Move = Push | Replace | Pop

  function MoveOf(p: seq<LiveFrame>): Move
    requires |p| > 0
  {
    var f := p[|p| - 1];
    if f.toChild && f.node.child.Node? then Push
    else if f.node.next.Node? then Replace
    else Pop
  }

  /** One pass of the inner loop (lines 860-888): enter the top node's child chain if it
      is still due and present, else move the top frame to the next sibling, else pop. */
  function Step(p: seq<LiveFrame>): (q: seq<LiveFrame>)
    requires |p| > 0
    ensures var f := p[|p| - 1];
            match MoveOf(p)
            case Push =>
              && |q| == |p| + 1 && q[..|p| - 1] == p[..|p| - 1]
              && q[|p| - 1] == f.(toChild := false) && q[|p|] == Frame(f.node.child, true)
            case Replace =>
              && |q| == |p| && q[..|p| - 1] == p[..|p| - 1]
              && q[|p| - 1] == Frame(f.node.next, true)
            case Pop => q == p[..|p| - 1]
  {
    var f := p[|p| - 1];
    var below := p[..|p| - 1];
    match MoveOf(p)
    case Push => below + [f.(toChild := false), Frame(f.node.child, true)]
    case Replace => below + [Frame(f.node.next, true)]
    case Pop => below
  }

  function Size(t: Tree): nat
    decreases t
  {
    if t.Nil? then 0 else 1 + Size(t.next) + Size(t.child)
  }

  /** What is left to visit from one frame: its child chain while still due, the rest
      of its sibling chain, and the frame itself; doubled so that a push, which trades
      a child for a new frame, still makes progress. */
  function Work(f: Frame): nat {
    if f.node.Nil? then 0
    else (if f.toChild then 2 * Size(f.node.child) else 0) + 2 * Size(f.node.next) + 1
  }

  function Measure(p: seq<LiveFrame>): nat {
    if |p| == 0 then 0 else Measure(p[..|p| - 1]) + Work(p[|p| - 1])
  }

  /** Every pass of the inner loop strictly decreases the work left, so `operator++` and
      any loop over the iterator terminate. */
  lemma {:induction false} StepDecreases(p: seq<LiveFrame>)
    requires |p| > 0
    ensures Measure(Step(p)) < Measure(p)
  {
    var q := Step(p);
    var f := p[|p| - 1];
    var below := p[..|p| - 1];
    match MoveOf(p) {
      case Push =>
        assert q[..|q| - 1] == below + [f.(toChild := false)];
        assert (below + [f.(toChild := false)])[..|p| - 1] == below;
      case Replace =>
        assert q[..|q| - 1] == below;
      case Pop =>
    }
  }

  /** `operator++` as written (lines 853-894): from a non-empty stack, step at least once
      and keep stepping while the top node has no value. (`haveValue()` is true for
      the undefined value, so the loop's `haveValue()` test means exactly that.) A pop
      back to an ancestor that holds a value stops there, although that ancestor was
      already visited on the way down. */
  function Advance(p: seq<LiveFrame>): (q: seq<LiveFrame>)
    ensures |q| == 0 || !HaveValue(q[|q| - 1].node)
    ensures |p| > 0 ==> Measure(q) < Measure(p)
    ensures |p| == 0 ==> q == p
    decreases Measure(p)
  {
    if |p| == 0 then p
    else
      var s := Step(p);
      StepDecreases(p);
      if |s| > 0 && HaveValue(s[|s| - 1].node) then Advance(s) else s
  }

  /** The advance the iterator is meant to perform: like `Advance`, but it never stops on
      the node a pop returns to, since that node was visited before its children. */
  function AdvanceIntended(p: seq<LiveFrame>): (q: seq<LiveFrame>)
    ensures |q| == 0 || !HaveValue(q[|q| - 1].node)
    ensures |p| > 0 ==> Measure(q) < Measure(p)
    ensures |p| == 0 ==> q == p
    decreases Measure(p)
  {
    if |p| == 0 then p
    else
      var s := Step(p);
      StepDecreases(p);
      if |s| > 0 && (MoveOf(p) == Pop || HaveValue(s[|s| - 1].node)) then AdvanceIntended(s) else s
  }

  // ---------------------------------------------------------------------------------
  // Keys

  /** Appending a node's character to a key; a NUL character, such as the root's, adds nothing. */
  function Extend(prefix: seq<char>, c: char): seq<char> {
    if c == Nul then prefix else prefix + [c]
  }

  /** The key of the position a stack designates. */
  function Key(p: seq<LiveFrame>): seq<char>
  {
    if |p| == 0 then [] else Extend(Key(p[..|p| - 1]), p[|p| - 1].node.ch)
  }

  /** `getString()` (lines 802-818): append, from the root down, every frame's character
      that is not NUL. */
  method GetString(p: seq<LiveFrame>) returns (s: Z.ZeroEnd)
    ensures Z.Valid(s) && Z.Chars(s) == Key(p)
    ensures Nul !in Z.Chars(s)
  {
    s := Z.Clear();
    var m := 0;
    while m < |p|
      invariant 0 <= m <= |p|
      invariant Z.Valid(s) && Z.Chars(s) == Key(p[..m])
      invariant Nul !in Z.Chars(s)
    {
      var ch := p[m].node.ch;
      if ch != Nul {
        s := Z.AppendChar(s, ch);
      }
      assert p[..m + 1][..m] == p[..m];
      m := m + 1;
    }
    assert p[..m] == p;
  }

  /** `getValue()` (lines 823-827): the value of the top node. */
  function GetValue(p: seq<LiveFrame>): int
    requires |p| > 0
  {
    p[|p| - 1].node.value
  }

  // ---------------------------------------------------------------------------------
  // What an iteration produces

  datatype Item = Item(key: seq<char>, value: int)

  /** A node's own contribution: its key and value, when it holds one. */
  function Here(key: seq<char>, v: int): seq<Item> {
    if v == Undefined then [] else [Item(key, v)]
  }

  /** The stored pairs of the chain `t` below `prefix`, in depth-first order: each node,
      then its child chain, then its next siblings. With sorted chains this is the
      order of the keys. */
  function Items(t: Tree, prefix: seq<char>): seq<Item>
    decreases t
  {
    if t.Nil? then []
    else
      var k := Extend(prefix, t.ch);
      Here(k, t.value) + Items(t.child, k) + Items(t.next, prefix)
  }

  /** What `Advance` actually enumerates from the chain `t`: `Items`, but every node that
      holds a value and has children comes again right after them. */
  function ItemsAsWritten(t: Tree, prefix: seq<char>): seq<Item>
    decreases t
  {
    if t.Nil? then []
    else
      var k := Extend(prefix, t.ch);
      Here(k, t.value) + ItemsAsWritten(t.child, k)
        + (if t.child.Node? then Here(k, t.value) else []) + ItemsAsWritten(t.next, prefix)
  }

  /** The stored pair at the top of a stack, if any. */
  function AtTop(p: seq<LiveFrame>): seq<Item>
  {
    if |p| == 0 then [] else Here(Key(p), p[|p| - 1].node.value)
  }

  /** What remains to be produced by the intended advance after the current position:
      for each frame from the top down, its child chain if still due, then the rest of
      its sibling chain. */
  function Pending(p: seq<LiveFrame>): seq<Item>
  {
    if |p| == 0 then []
    else
      var f := p[|p| - 1];
      var below := p[..|p| - 1];
      (if f.toChild then Items(f.node.child, Key(p)) else []) + Items(f.node.next, Key(below)) + Pending(below)
  }

  /** The part of `PendingAsWritten` that belongs to the top frame. */
  function TopAsWritten(p: seq<LiveFrame>): seq<Item>
    requires |p| > 0
  {
    var f := p[|p| - 1];
    (if f.toChild && f.node.child.Node? then ItemsAsWritten(f.node.child, Key(p)) + AtTop(p) else [])
      + ItemsAsWritten(f.node.next, Key(p[..|p| - 1]))
  }

  /** The frames under the top: each is returned to by a pop, stopped at again when its
      node holds a value, and then continues as a top frame. */
  function BelowAsWritten(p: seq<LiveFrame>): seq<Item>
  {
    if |p| == 0 then [] else AtTop(p) + TopAsWritten(p) + BelowAsWritten(p[..|p| - 1])
  }

  /** What remains to be produced by `Advance` after the current position. */
  function PendingAsWritten(p: seq<LiveFrame>): seq<Item>
  {
    if |p| == 0 then [] else TopAsWritten(p) + BelowAsWritten(p[..|p| - 1])
  }

  /** The loop `for (it = ...; it != cend(); ++it)` reading `getString()` and
      `getValue()` at every position, with `operator++` as written. */
  function Run(p: seq<LiveFrame>): (r: seq<Item>)
    decreases Measure(p)
  {
    if |p| == 0 then [] else [Item(Key(p), GetValue(p))] + Run(Advance(p))
  }

  /** The same loop with the intended advance. */
  function RunIntended(p: seq<LiveFrame>): (r: seq<Item>)
    decreases Measure(p)
  {
    if |p| == 0 then [] else [Item(Key(p), GetValue(p))] + RunIntended(AdvanceIntended(p))
  }

  /** One inner pass as seen from what remains: a push or a replace moves onto a node
      that is then produced if it holds a value; a pop produces nothing. */
  lemma {:induction false} StepPending(p: seq<LiveFrame>)
    requires |p| > 0
    ensures Pending(p) == (if MoveOf(p) == Pop then [] else AtTop(Step(p))) + Pending(Step(p))
  {
    match MoveOf(p) {
      case Push => PushBefore(p); PushAfter(p);
      case Replace => ReplaceBefore(p); ReplaceAfter(p);
      case Pop => PopPending(p);
    }
  }

  /** The same for `Advance`: here a pop produces the node it returns to, if that node
      holds a value. */
  lemma {:induction false} StepPendingAsWritten(p: seq<LiveFrame>)
    requires |p| > 0
    ensures PendingAsWritten(p) == AtTop(Step(p)) + PendingAsWritten(Step(p))
  {
    match MoveOf(p) {
      case Push => PushBeforeAsWritten(p); PushAfterAsWritten(p);
      case Replace => ReplaceBeforeAsWritten(p); ReplaceAfterAsWritten(p);
      case Pop => PopAsWritten(p);
    }
  }

  /** A stack is the stack below its top frame with that frame pushed. */
  lemma {:induction false} SplitTop(p: seq<LiveFrame>)
    requires |p| > 0
    ensures p == p[..|p| - 1] + [p[|p| - 1]]
  {
  }

  lemma {:induction false} KeyPush(below: seq<LiveFrame>, f: LiveFrame)
    ensures Key(below + [f]) == Extend(Key(below), f.node.ch)
  {
    assert (below + [f])[..|below|] == below;
  }

  lemma {:induction false} AtTopPush(below: seq<LiveFrame>, f: LiveFrame)
    ensures AtTop(below + [f]) == Here(Extend(Key(below), f.node.ch), f.node.value)
  {
    KeyPush(below, f);
  }

  lemma {:induction false} PendingPush(below: seq<LiveFrame>, f: LiveFrame)
    ensures Pending(below + [f])
         == (if f.toChild then Items(f.node.child, Extend(Key(below), f.node.ch)) else [])
            + Items(f.node.next, Key(below)) + Pending(below)
  {
    assert (below + [f])[..|below|] == below;
    KeyPush(below, f);
  }

  lemma {:induction false} TopAsWrittenPush(below: seq<LiveFrame>, f: LiveFrame)
    ensures TopAsWritten(below + [f])
         == (if f.toChild && f.node.child.Node?
             then ItemsAsWritten(f.node.child, Extend(Key(below), f.node.ch))
                  + Here(Extend(Key(below), f.node.ch), f.node.value)
             else [])
            + ItemsAsWritten(f.node.next, Key(below))
  {
    assert (below + [f])[..|below|] == below;
    KeyPush(below, f);
    AtTopPush(below, f);
  }

  lemma {:induction false} PendingAsWrittenPush(below: seq<LiveFrame>, f: LiveFrame)
    ensures PendingAsWritten(below + [f]) == TopAsWritten(below + [f]) + BelowAsWritten(below)
  {
    assert (below + [f])[..|below|] == below;
  }

  lemma {:induction false} BelowAsWrittenPush(below: seq<LiveFrame>, f: LiveFrame)
    ensures BelowAsWritten(below + [f])
         == AtTop(below + [f]) + TopAsWritten(below + [f]) + BelowAsWritten(below)
  {
    assert (below + [f])[..|below|] == below;
  }

  /** Moving onto a fresh frame produces its node (when it holds a value) and leaves
      pending what `Items` lists after that node. */
  lemma {:induction false} Enter(below: seq<LiveFrame>, top: LiveFrame)
    requires top.toChild
    ensures AtTop(below + [top]) + Pending(below + [top]) == Items(top.node, Key(below)) + Pending(below)
  {
    var n := top.node;
    var kq := Extend(Key(below), n.ch);
    var h, x, y, z := Here(kq, n.value), Items(n.child, kq), Items(n.next, Key(below)), Pending(below);
    PendingPush(below, top);
    AtTopPush(below, top);
    KeyPush(below, top);
    assert Pending(below + [top]) == x + y + z;
    assert Items(n, Key(below)) == h + x + y;
    Regroup3(h, x, y, z);
  }

  lemma Regroup3(h: seq<Item>, x: seq<Item>, y: seq<Item>, z: seq<Item>)
    ensures h + (x + y + z) == (h + x + y) + z
  {
  }


  /** `ItemsAsWritten` of a chain that starts with a node. */
  lemma {:induction false} ItemsAsWrittenNode(n: Tree, prefix: seq<char>)
    requires n.Node?
    ensures (var k := Extend(prefix, n.ch);
             ItemsAsWritten(n, prefix)
             == Here(k, n.value)
                + ((if n.child.Node? then ItemsAsWritten(n.child, k) + Here(k, n.value) else [])
                   + ItemsAsWritten(n.next, prefix)))
  {
    var k := Extend(prefix, n.ch);
    if n.child.Nil? {
      assert ItemsAsWritten(n.child, k) == [];
    }
  }

  lemma {:induction false} EnterTopAsWritten(below: seq<LiveFrame>, top: LiveFrame)
    requires top.toChild
    ensures AtTop(below + [top]) + TopAsWritten(below + [top]) == ItemsAsWritten(top.node, Key(below))
  {
    TopAsWrittenPush(below, top);
    AtTopPush(below, top);
    ItemsAsWrittenNode(top.node, Key(below));
  }

  /** The same for `Advance` as written. */
  lemma {:induction false} EnterAsWritten(below: seq<LiveFrame>, top: LiveFrame)
    requires top.toChild
    ensures AtTop(below + [top]) + PendingAsWritten(below + [top])
         == ItemsAsWritten(top.node, Key(below)) + BelowAsWritten(below)
  {
    var q := below + [top];
    PendingAsWrittenPush(below, top);
    EnterTopAsWritten(below, top);
    Regroup(AtTop(q), TopAsWritten(q), BelowAsWritten(below), PendingAsWritten(q),
            ItemsAsWritten(top.node, Key(below)));
  }

  lemma {:induction false} Regroup(x: seq<Item>, y: seq<Item>, z: seq<Item>, yz: seq<Item>, xy: seq<Item>)
    requires yz == y + z && xy == x + y
    ensures x + yz == xy + z
  {
  }

  /** The pushed stack: the top frame marked as having entered its child chain, and a
      fresh frame for the first child above it. */
  lemma {:induction false} StepPush(p: seq<LiveFrame>)
    requires |p| > 0 && MoveOf(p) == Push
    ensures var f := p[|p| - 1];
            var mid: seq<LiveFrame> := p[..|p| - 1] + [f.(toChild := false)];
            Step(p) == mid + [Frame(f.node.child, true)]
  {
  }

  lemma {:induction false} StepReplace(p: seq<LiveFrame>)
    requires |p| > 0 && MoveOf(p) == Replace
    ensures Step(p) == p[..|p| - 1] + [Frame(p[|p| - 1].node.next, true)]
  {
  }

  lemma {:induction false} PushBefore(p: seq<LiveFrame>)
    requires |p| > 0 && MoveOf(p) == Push
    ensures Pending(p)
         == Items(p[|p| - 1].node.child, Key(p)) + Items(p[|p| - 1].node.next, Key(p[..|p| - 1]))
            + Pending(p[..|p| - 1])
  {
    SplitTop(p);
    PendingPush(p[..|p| - 1], p[|p| - 1]);
    KeyPush(p[..|p| - 1], p[|p| - 1]);
  }

  lemma {:induction false} PushAfter(p: seq<LiveFrame>)
    requires |p| > 0 && MoveOf(p) == Push
    ensures AtTop(Step(p)) + Pending(Step(p))
         == Items(p[|p| - 1].node.child, Key(p)) + Items(p[|p| - 1].node.next, Key(p[..|p| - 1]))
            + Pending(p[..|p| - 1])
  {
    var f := p[|p| - 1];
    var below := p[..|p| - 1];
    var entered: LiveFrame := f.(toChild := false);
    SplitTop(p);
    KeyPush(below, f);
    KeyPush(below, entered);
    PendingPush(below, entered);
    Enter(below + [entered], Frame(f.node.child, true));
    StepPush(p);
  }

  lemma {:induction false} PushBeforeAsWritten(p: seq<LiveFrame>)
    requires |p| > 0 && MoveOf(p) == Push
    ensures PendingAsWritten(p)
         == ItemsAsWritten(p[|p| - 1].node.child, Key(p)) + AtTop(p)
            + ItemsAsWritten(p[|p| - 1].node.next, Key(p[..|p| - 1])) + BelowAsWritten(p[..|p| - 1])
  {
  }

  lemma {:induction false} PushAfterAsWritten(p: seq<LiveFrame>)
    requires |p| > 0 && MoveOf(p) == Push
    ensures AtTop(Step(p)) + PendingAsWritten(Step(p))
         == ItemsAsWritten(p[|p| - 1].node.child, Key(p)) + AtTop(p)
            + ItemsAsWritten(p[|p| - 1].node.next, Key(p[..|p| - 1])) + BelowAsWritten(p[..|p| - 1])
  {
    var f := p[|p| - 1];
    var below := p[..|p| - 1];
    var entered: LiveFrame := f.(toChild := false);
    SplitTop(p);
    KeyPush(below, f);
    AtTopPush(below, f);
    KeyPush(below, entered);
    AtTopPush(below, entered);
    BelowAsWrittenPush(below, entered);
    TopAsWrittenPush(below, entered);
    EnterAsWritten(below + [entered], Frame(f.node.child, true));
    StepPush(p);
  }

  lemma {:induction false} ReplaceBefore(p: seq<LiveFrame>)
    requires |p| > 0 && MoveOf(p) == Replace
    ensures Pending(p) == Items(p[|p| - 1].node.next, Key(p[..|p| - 1])) + Pending(p[..|p| - 1])
  {
    SplitTop(p);
    PendingPush(p[..|p| - 1], p[|p| - 1]);
  }

  lemma {:induction false} ReplaceAfter(p: seq<LiveFrame>)
    requires |p| > 0 && MoveOf(p) == Replace
    ensures AtTop(Step(p)) + Pending(Step(p))
         == Items(p[|p| - 1].node.next, Key(p[..|p| - 1])) + Pending(p[..|p| - 1])
  {
    Enter(p[..|p| - 1], Frame(p[|p| - 1].node.next, true));
    StepReplace(p);
  }

  lemma {:induction false} ReplaceBeforeAsWritten(p: seq<LiveFrame>)
    requires |p| > 0 && MoveOf(p) == Replace
    ensures PendingAsWritten(p)
         == ItemsAsWritten(p[|p| - 1].node.next, Key(p[..|p| - 1])) + BelowAsWritten(p[..|p| - 1])
  {
  }

  lemma {:induction false} ReplaceAfterAsWritten(p: seq<LiveFrame>)
    requires |p| > 0 && MoveOf(p) == Replace
    ensures AtTop(Step(p)) + PendingAsWritten(Step(p))
         == ItemsAsWritten(p[|p| - 1].node.next, Key(p[..|p| - 1])) + BelowAsWritten(p[..|p| - 1])
  {
    EnterAsWritten(p[..|p| - 1], Frame(p[|p| - 1].node.next, true));
    StepReplace(p);
  }

  lemma {:induction false} PopPending(p: seq<LiveFrame>)
    requires |p| > 0 && MoveOf(p) == Pop
    ensures Pending(p) == Pending(Step(p))
  {
  }

  lemma {:induction false} PopAsWritten(p: seq<LiveFrame>)
    requires |p| > 0 && MoveOf(p) == Pop
    ensures PendingAsWritten(p) == AtTop(Step(p)) + PendingAsWritten(Step(p))
  {
    PopTop(p);
    BelowSplit(p[..|p| - 1]);
  }

  /** A frame that pops has nothing left of its own. */
  lemma {:induction false} PopTop(p: seq<LiveFrame>)
    requires |p| > 0 && MoveOf(p) == Pop
    ensures Step(p) == p[..|p| - 1]
    ensures PendingAsWritten(p) == BelowAsWritten(p[..|p| - 1])
  {
    assert TopAsWritten(p) == [];
  }

  /** Returning to a frame by a pop produces its pair, then what it has left as a top. */
  lemma {:induction false} BelowSplit(q: seq<LiveFrame>)
    ensures BelowAsWritten(q) == AtTop(q) + PendingAsWritten(q)
  {
    if |q| > 0 {
      Regroup(AtTop(q), TopAsWritten(q), BelowAsWritten(q[..|q| - 1]), PendingAsWritten(q), AtTop(q) + TopAsWritten(q));
    }
  }

  /** Iterating with the intended advance from any position produces exactly the
      pairs still pending there, each once. */
  lemma {:induction false} RunIntendedPending(p: seq<LiveFrame>)
    ensures RunIntended(AdvanceIntended(p)) == Pending(p)
    decreases Measure(p)
  {
    if |p| > 0 {
      var s := Step(p);
      StepDecreases(p);
      StepPending(p);
      if |s| > 0 {
        RunIntendedPending(s);
      }
    }
  }

  /** Iterating with `operator++` as written from any position produces
      `PendingAsWritten`. */
  lemma {:induction false} RunPendingAsWritten(p: seq<LiveFrame>)
    ensures Run(Advance(p)) == PendingAsWritten(p)
    decreases Measure(p)
  {
    if |p| > 0 {
      var s := Step(p);
      StepDecreases(p);
      StepPendingAsWritten(p);
      if |s| > 0 {
        RunPendingAsWritten(s);
      }
    }
  }

  // ---------------------------------------------------------------------------------
  // Positions inside a chain

  /** The stored pairs of the nodes of the chain `t` before its node `n`, each followed
      by those of its child chain. */
  function ItemsBefore(t: Tree, n: Tree, prefix: seq<char>): seq<Item>
    requires OnChain(t, n)
    decreases t
  {
    if t == n then []
    else
      var k := Extend(prefix, t.ch);
      Here(k, t.value) + Items(t.child, k) + ItemsBefore(t.next, n, prefix)
  }

  /** The enumeration of a chain splits at any of its nodes. */
  lemma {:induction false} ItemsSplit(t: Tree, n: Tree, prefix: seq<char>)
    requires OnChain(t, n)
    ensures Items(t, prefix) == ItemsBefore(t, n, prefix) + Items(n, prefix)
    decreases t
  {
    if t != n {
      ItemsSplit(t.next, n, prefix);
    }
  }

  /** The key of a stack depends on its nodes only, not on what the frames still have to do. */
  lemma {:induction false} KeySameNodes(p: seq<LiveFrame>, q: seq<LiveFrame>)
    requires |p| == |q| && forall m :: 0 <= m < |p| ==> p[m].node == q[m].node
    ensures Key(p) == Key(q)
    decreases |p|
  {
    if |p| > 0 {
      KeySameNodes(p[..|p| - 1], q[..|q| - 1]);
    }
  }
}
