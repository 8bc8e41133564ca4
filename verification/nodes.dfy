/** `Node` (CharTrie/TrieData.h): one character, one value, an owned `next` sibling and
    an owned first `child`. A value of `Tree` is the node a pointer designates together
    with everything it owns; `Nil` is the null pointer. */
module Nodes {
  import opened Options
  import opened CharOrder

  /** The character a default-constructed node carries; the root keeps it for good. */
  const RootChar: char := '\0'

  datatype Tree = Nil | Node(ch: char, value: int, next: Tree, child: Tree)

  /** `Node::create(keyChar)`: no value, no links. */
  function Fresh(c: char): Tree {
    Node(c, Undefined, Nil, Nil)
  }

  /** `Node::create()`: the default node, also used as the root. */
  const Blank: Tree := Fresh(RootChar)

  /** `Node::haveValue` as written: true when the stored value IS the undefined sentinel,
      the reverse of what its name says. Its only caller, the iterator, relies on exactly
      this sense. */
  predicate HaveValue(n: Tree)
    requires n.Node?
  {
    n.value == Undefined
  }

  /** What one node of a sibling chain contributes to its level: its character, its
      value and its child chain; its `next` link is the rest of the level. */
  datatype Entry = Entry(ch: char, value: int, child: Tree)

  function EntryOf(n: Tree): Entry
    requires n.Node?
  {
    Entry(n.ch, n.value, n.child)
  }

  /** The level that starts at `t`, read along the `next` links. */
  function Entries(t: Tree): seq<Entry>
    decreases t
  {
    if t.Nil? then [] else [EntryOf(t)] + Entries(t.next)
  }

  /** The node reached from `t` by following `next` `i` times (what a pointer into a
      chain designates). */
  function Sibling(t: Tree, i: nat): (r: Tree)
    ensures i < |Entries(t)| ==> r.Node? && EntryOf(r) == Entries(t)[i] && Entries(r) == Entries(t)[i..]
    ensures i >= |Entries(t)| ==> r.Nil?
  {
    if t.Nil? then Nil else if i == 0 then t else Sibling(t.next, i - 1)
  }

  /** Writing node `n` through a pointer to the `i`-th node of the chain `t`. */
  function PutSibling(t: Tree, i: nat, n: Tree): (r: Tree)
    ensures i < |Entries(t)| ==> Entries(r) == Entries(t)[..i] + Entries(n)
    ensures i >= |Entries(t)| ==> r == t
  {
    if t.Nil? then t else if i == 0 then n else t.(next := PutSibling(t.next, i - 1, n))
  }

  /** Writing through the pointer to the `i`-th node and reading it back gives the node written. */
  lemma {:induction false} SiblingOfPut(t: Tree, i: nat, n: Tree)
    requires i < |Entries(t)|
    ensures Sibling(PutSibling(t, i, n), i) == n
    decreases i
  {
    if i > 0 {
      SiblingOfPut(t.next, i - 1, n);
    }
  }

  /** `n` is one of the nodes of the chain `t`. */
  predicate OnChain(t: Tree, n: Tree)
    decreases t
  {
    t.Node? && (t == n || OnChain(t.next, n))
  }

  lemma {:induction false} OnChainSibling(t: Tree, i: nat)
    requires i < |Entries(t)|
    ensures OnChain(t, Sibling(t, i))
    decreases i
  {
    if i > 0 {
      OnChainSibling(t.next, i - 1);
    }
  }

  /** Overwriting the `i`-th node with one that keeps its `next` link changes that entry only. */
  lemma PutSiblingEntry(t: Tree, i: nat, n: Tree)
    requires i < |Entries(t)| && n.Node? && n.next == Sibling(t, i).next
    ensures Entries(PutSibling(t, i, n)) == Entries(t)[i := EntryOf(n)]
  {
    var es := Entries(t);
    var s := Sibling(t, i);
    EntriesCons(s);
    EntriesCons(n);
    TailAfter(es[i..], Entries(s.next));
    assert es[i..][1..] == es[i + 1..];
    UpdateSplit(es, i, EntryOf(n));
  }

  lemma EntriesCons(t: Tree)
    requires t.Node?
    ensures Entries(t) == [EntryOf(t)] + Entries(t.next)
  {
  }

  lemma TailAfter(a: seq<Entry>, b: seq<Entry>)
    requires |a| > 0 && a == [a[0]] + b
    ensures a[1..] == b
  {
  }

  /** Replacing one entry is cutting the level around it. */
  lemma UpdateSplit(es: seq<Entry>, i: nat, x: Entry)
    requires i < |es|
    ensures es[i := x] == es[..i] + ([x] + es[i + 1..])
  {
  }

  /** The index of the first entry whose character is equivalent to `c`. */
  function IndexOf(less: Less, es: seq<Entry>, c: char): (r: Option<nat>)
    ensures r.Some? ==> r.value < |es| && IsEqual(less, es[r.value].ch, c)
    ensures r.Some? ==> forall m :: 0 <= m < r.value ==> !IsEqual(less, es[m].ch, c)
    ensures r.None? ==> forall m :: 0 <= m < |es| ==> !IsEqual(less, es[m].ch, c)
  {
    if |es| == 0 then None
    else if IsEqual(less, es[0].ch, c) then Some(0)
    else match IndexOf(less, es[1..], c)
      case None => None
      case Some(j) => Some(j + 1)
  }

  /** Where the scan of `getBrother` stops: the first entry that does not order before `c`. */
  function LowerBoundIndex(less: Less, es: seq<Entry>, c: char): (p: nat)
    ensures p <= |es|
    ensures forall m :: 0 <= m < p ==> IsLess(less, es[m].ch, c)
    ensures p < |es| ==> !IsLess(less, es[p].ch, c)
  {
    if |es| == 0 || !IsLess(less, es[0].ch, c) then 0
    else 1 + LowerBoundIndex(less, es[1..], c)
  }

  /** `es` with `e` inserted at index `i`. */
  function Insert(es: seq<Entry>, i: nat, e: Entry): seq<Entry>
    requires i <= |es|
  {
    es[..i] + [e] + es[i..]
  }

  /** The outcome of `getBrother`: the chain as it now reads from `self`, the index in it
      of the returned node (`None` for a null result), and `bCreated`. */
  datatype Brother = Brother(chain: Tree, found: Option<nat>, created: bool)

  function Shift(found: Option<nat>): Option<nat> {
    match found
    case None => None
    case Some(j) => Some(j + 1)
  }

  /** What the forward scan of `getBrother` leaves behind on the chain `t`: with `p` the
      first entry not ordering before `c`, an equivalent entry there is returned as it
      is; otherwise a fresh valueless node is inserted at `p` when creating, and nothing
      is found when not. */
  predicate Scanned(less: Less, t: Tree, c: char, create: bool, r: Brother) {
    var es := Entries(t);
    var p := LowerBoundIndex(less, es, c);
    if p < |es| && IsEqual(less, es[p].ch, c) then r == Brother(t, Some(p), false)
    else if create then
      && r.found == Some(p) && r.created && r.chain.Node?
      && Entries(r.chain) == Insert(es, p, Entry(c, Undefined, Nil))
    else r == Brother(t, None, false)
  }

  /** The forward scan of `getBrother` (lines 407-444) over the chain `t` that hangs off
      `nodePrev`: skip nodes ordering before `c`; stop at an equivalent node, or insert
      a fresh node before the first greater one or at the end when allowed. */
  function Scan(less: Less, t: Tree, c: char, create: bool): (r: Brother)
    ensures Scanned(less, t, c, create, r)
    decreases t
  {
    if t.Nil? then
      if create then Brother(Fresh(c), Some(0), true) else Brother(Nil, None, false)
    else if IsLess(less, t.ch, c) then
      var s := Scan(less, t.next, c, create);
      ScanSkip(less, t, c, create, s);
      Brother(t.(next := s.chain), Shift(s.found), s.created)
    else if IsEqual(less, t.ch, c) then
      Brother(t, Some(0), false)
    else if create then
      assert Entries(Node(c, Undefined, t, Nil)) == Insert(Entries(t), 0, Entry(c, Undefined, Nil));
      Brother(Node(c, Undefined, t, Nil), Some(0), true)
    else
      Brother(t, None, false)
  }

  /** Skipping a node that orders before `c` moves the scan's outcome one place along. */
  lemma ScanSkip(less: Less, t: Tree, c: char, create: bool, s: Brother)
    requires t.Node? && IsLess(less, t.ch, c) && Scanned(less, t.next, c, create, s)
    ensures Scanned(less, t, c, create, Brother(t.(next := s.chain), Shift(s.found), s.created))
  {
    var es1 := Entries(t.next);
    var p1 := LowerBoundIndex(less, es1, c);
    if p1 < |es1| && IsEqual(less, es1[p1].ch, c) {
      SkipFound(less, t, c, create, s, p1);
    } else if create {
      SkipInserted(less, t, c, s);
    } else {
      SkipMissing(less, t, c, s);
    }
  }

  lemma SkipFound(less: Less, t: Tree, c: char, create: bool, s: Brother, p1: nat)
    requires t.Node? && IsLess(less, t.ch, c) && Scanned(less, t.next, c, create, s)
    requires p1 == LowerBoundIndex(less, Entries(t.next), c) && p1 < |Entries(t.next)|
    requires IsEqual(less, Entries(t.next)[p1].ch, c)
    ensures Scanned(less, t, c, create, Brother(t.(next := s.chain), Shift(s.found), s.created))
  {
    assert s == Brother(t.next, Some(p1), false);
    EntriesCons(t);
    LowerBoundCons(less, EntryOf(t), Entries(t.next), c);
    assert Entries(t)[1 + p1] == Entries(t.next)[p1];
    ScannedMatch(less, t, c, create, 1 + p1);
    assert t.(next := s.chain) == t;
  }

  /** A scan that meets an equivalent node stops there. */
  lemma ScannedMatch(less: Less, t: Tree, c: char, create: bool, p: nat)
    requires p == LowerBoundIndex(less, Entries(t), c) && p < |Entries(t)| && IsEqual(less, Entries(t)[p].ch, c)
    ensures Scanned(less, t, c, create, Brother(t, Some(p), false))
  {
  }

  lemma SkipMissing(less: Less, t: Tree, c: char, s: Brother)
    requires t.Node? && IsLess(less, t.ch, c) && Scanned(less, t.next, c, false, s)
    requires var p1 := LowerBoundIndex(less, Entries(t.next), c);
             !(p1 < |Entries(t.next)| && IsEqual(less, Entries(t.next)[p1].ch, c))
    ensures Scanned(less, t, c, false, Brother(t.(next := s.chain), Shift(s.found), s.created))
  {
    var p1 := LowerBoundIndex(less, Entries(t.next), c);
    assert s == Brother(t.next, None, false);
    EntriesCons(t);
    LowerBoundCons(less, EntryOf(t), Entries(t.next), c);
    assert 1 + p1 < |Entries(t)| ==> Entries(t)[1 + p1] == Entries(t.next)[p1];
  }

  lemma SkipInserted(less: Less, t: Tree, c: char, s: Brother)
    requires t.Node? && IsLess(less, t.ch, c)
    requires var es1 := Entries(t.next);
             var p1 := LowerBoundIndex(less, es1, c);
             && !(p1 < |es1| && IsEqual(less, es1[p1].ch, c))
             && s.found == Some(p1) && s.created && s.chain.Node?
             && Entries(s.chain) == Insert(es1, p1, Entry(c, Undefined, Nil))
    ensures Scanned(less, t, c, true, Brother(t.(next := s.chain), Some(1 + s.found.value), true))
  {
    var es1 := Entries(t.next);
    var p1 := LowerBoundIndex(less, es1, c);
    EntriesCons(t);
    EntriesCons(t.(next := s.chain));
    LowerBoundCons(less, EntryOf(t), es1, c);
    assert 1 + p1 < |Entries(t)| ==> Entries(t)[1 + p1] == es1[p1];
    InsertCons(EntryOf(t), es1, p1, Entry(c, Undefined, Nil));
  }

  /** Past an entry that orders before `c`, the scan stops one place further along. */
  lemma LowerBoundCons(less: Less, x: Entry, es: seq<Entry>, c: char)
    requires IsLess(less, x.ch, c)
    ensures LowerBoundIndex(less, [x] + es, c) == 1 + LowerBoundIndex(less, es, c)
  {
    assert ([x] + es)[1..] == es;
  }

  lemma InsertCons(x: Entry, es: seq<Entry>, p: nat, e: Entry)
    requires p <= |es|
    ensures Insert([x] + es, 1 + p, e) == [x] + Insert(es, p, e)
  {
    assert ([x] + es)[..1 + p] == [x] + es[..p];
    assert ([x] + es)[1 + p..] == es[p..];
  }

  /** What a scan's outcome says about the chain it returns. */
  lemma ScannedFound(less: Less, t: Tree, c: char, create: bool, r: Brother)
    requires Scanned(less, t, c, create, r)
    ensures create ==> r.found.Some?
    ensures r.found.Some? ==> r.found.value < |Entries(r.chain)| && IsEqual(less, Entries(r.chain)[r.found.value].ch, c)
    ensures r.created ==> r.found.Some? && EntryOf(Sibling(r.chain, r.found.value)) == Entry(c, Undefined, Nil)
    ensures !r.created ==> r.chain == t
  {
    var es := Entries(t);
    var p := LowerBoundIndex(less, es, c);
    if !(p < |es| && IsEqual(less, es[p].ch, c)) && create {
      assert Entries(r.chain)[p] == Entry(c, Undefined, Nil);
    }
  }

  /** `Node::getBrother(keyChar, bCreateIfNotExist, bCreated)` on the chain starting at `self`.
      A character ordering before `self`'s relabels `self` in place whatever the create
      flag says: `self` takes the new character, no value and no child, and a clone of
      its old contents (character, value, child, next) becomes its `next`. */
  function GetBrother(less: Less, self: Tree, c: char, create: bool): (r: Brother)
    requires self.Node?
    ensures r.chain.Node?
    ensures IsLess(less, c, self.ch) ==>
              && r.created && r.found == Some(0)
              && r.chain.ch == c && r.chain.value == Undefined && r.chain.child == Nil
              && r.chain.next == self
    ensures !IsLess(less, c, self.ch) && IsEqual(less, c, self.ch) ==> r == Brother(self, Some(0), false)
    ensures !IsLess(less, c, self.ch) && !IsEqual(less, c, self.ch) ==>
              1 <= LowerBoundIndex(less, Entries(self), c) && Scanned(less, self, c, create, r)
    ensures create ==> r.found.Some?
    ensures r.found.Some? ==> r.found.value < |Entries(r.chain)| && IsEqual(less, Entries(r.chain)[r.found.value].ch, c)
    ensures r.created ==> r.found.Some? && EntryOf(Sibling(r.chain, r.found.value)) == Entry(c, Undefined, Nil)
    ensures !r.created ==> r.chain == self
  {
    if IsLess(less, c, self.ch) then
      assert Entries(Node(c, Undefined, self, Nil))[0] == Entry(c, Undefined, Nil);
      Brother(Node(c, Undefined, self, Nil), Some(0), true)
    else if IsEqual(less, c, self.ch) then
      Brother(self, Some(0), false)
    else
      var s := Scan(less, self.next, c, create);
      ScanSkip(less, self, c, create, s);
      var r := Brother(self.(next := s.chain), Shift(s.found), s.created);
      ScannedFound(less, self, c, create, r);
      r
  }

  /** The outcome of `removeBrother`: `self` as it now is, and the detached node. */
  datatype Detached = Detached(node: Tree, removed: Option<Tree>)

  /** What unlinking `c` from the chain `t` leaves: without an equivalent node the chain
      is unchanged; otherwise the first equivalent node is gone from the level and is
      returned with its `next` cleared. */
  predicate Unlinked(less: Less, t: Tree, c: char, r: Detached) {
    match IndexOf(less, Entries(t), c)
    case None => r == Detached(t, None)
    case Some(j) =>
      && Entries(r.node) == Entries(t)[..j] + Entries(t)[j + 1..]
      && r.removed == Some(Sibling(t, j).(next := Nil))
  }

  /** The `for` loop of `removeBrother` (lines 465-483) over the chain `t`: unlink the
      first node equivalent to `c` and clear that node's `next`. */
  function Unlink(less: Less, t: Tree, c: char): (r: Detached)
    ensures Unlinked(less, t, c, r)
    decreases t
  {
    if t.Nil? then Detached(Nil, None)
    else if IsEqual(less, t.ch, c) then
      assert Entries(t)[1..] == Entries(t.next);
      Detached(t.next, Some(t.(next := Nil)))
    else
      var u := Unlink(less, t.next, c);
      UnlinkSkip(less, t, c, u);
      Detached(t.(next := u.node), u.removed)
  }

  /** Passing a node that is not equivalent to `c` moves the unlinked position one place
      along. */
  lemma UnlinkSkip(less: Less, t: Tree, c: char, u: Detached)
    requires t.Node? && !IsEqual(less, t.ch, c) && Unlinked(less, t.next, c, u)
    ensures Unlinked(less, t, c, Detached(t.(next := u.node), u.removed))
  {
    var es, es1 := Entries(t), Entries(t.next);
    IndexOfCons(less, EntryOf(t), es1, c);
    assert es == [EntryOf(t)] + es1;
    match IndexOf(less, es1, c)
    case None =>
    case Some(j) =>
      assert Sibling(t, j + 1) == Sibling(t.next, j);
      RemoveCons(EntryOf(t), es1, Entries(u.node), j);
  }

  lemma IndexOfCons(less: Less, e: Entry, es: seq<Entry>, c: char)
    requires !IsEqual(less, e.ch, c)
    ensures IndexOf(less, [e] + es, c) == Shift(IndexOf(less, es, c))
  {
    assert ([e] + es)[1..] == es;
  }

  lemma RemoveCons(e: Entry, es: seq<Entry>, rs: seq<Entry>, j: nat)
    requires j < |es| && rs == es[..j] + es[j + 1..]
    ensures [e] + rs == ([e] + es)[..j + 1] + ([e] + es)[j + 2..]
  {
    assert ([e] + es)[..j + 1] == [e] + es[..j];
    assert ([e] + es)[j + 2..] == es[j + 1..];
  }

  /** `Node::removeBrother(keyChar)` as written. If `self`'s first child is equivalent to
      `c`, that child is detached with its whole sibling chain still attached, `self`'s
      next sibling becomes `self`'s child and `self`'s next skips one node. Otherwise the
      search runs along `self`'s own `next` chain (`self`'s level, not its children's). */
  function RemoveBrother(less: Less, self: Tree, c: char): (r: Detached)
    requires self.Node?
    ensures r.node.Node? && r.node.ch == self.ch && r.node.value == self.value
    ensures r.removed.None? <==>
              && !(self.child.Node? && IsEqual(less, self.child.ch, c))
              && IndexOf(less, Entries(self.next), c).None?
    ensures r.removed.None? ==> r.node == self
    ensures self.child.Node? && IsEqual(less, self.child.ch, c) ==>
              && r.removed == Some(self.child)
              && r.node.child == self.next
              && Entries(r.node.next) == (if self.next.Nil? then [] else Entries(self.next)[1..])
    ensures !(self.child.Node? && IsEqual(less, self.child.ch, c)) && r.removed.Some? ==>
              var j := IndexOf(less, Entries(self.next), c).value;
              && r.node.child == self.child
              && Entries(r.node.next) == Entries(self.next)[..j] + Entries(self.next)[j + 1..]
              && r.removed == Some(Sibling(self.next, j).(next := Nil))
  {
    if self.child.Node? && IsEqual(less, self.child.ch, c) then
      Detached(self.(child := self.next, next := if self.next.Node? then self.next.next else Nil), Some(self.child))
    else
      var u := Unlink(less, self.next, c);
      Detached(self.(next := u.node), u.removed)
  }

  /** The outcome of `getChild(bCreateIfNotExist, bCreated)`: the node as it now is,
      the returned child pointer and `bCreated`. */
  datatype ChildResult = ChildResult(node: Tree, child: Tree, created: bool)

  /** `Node::getChild(bCreateIfNotExist, bCreated)`: a missing child is created (as a
      default node) only when asked to. */
  function GetChild(n: Tree, create: bool): (r: ChildResult)
    requires n.Node?
    ensures r.node.Node? && r.child == r.node.child
    ensures r.node.ch == n.ch && r.node.value == n.value && r.node.next == n.next
    ensures r.created <==> n.child.Nil? && create
    ensures r.created ==> r.child == Blank
    ensures !r.created ==> r.node == n
    ensures r.child.Nil? <==> n.child.Nil? && !create
  {
    if n.child.Nil? && create then ChildResult(n.(child := Blank), Blank, true)
    else ChildResult(n, n.child, false)
  }

  // ---------------------------------------------------------------------------------
  // The sorted-chain invariant

  /** Every character on the chain `t` orders after `c`. */
  ghost predicate Above(less: Less, c: char, t: Tree)
    decreases t
  {
    t.Nil? || (less(c, t.ch) && Above(less, c, t.next))
  }

  /** Every sibling chain in `t` (the chain from `t` itself included) is strictly ascending
      under `less`; with a strict weak order that also rules out two equivalent siblings. */
  ghost predicate WellFormed(less: Less, t: Tree)
    decreases t
  {
    t.Nil? || (Above(less, t.ch, t.next) && WellFormed(less, t.next) && WellFormed(less, t.child))
  }

  ghost predicate Sorted(less: Less, es: seq<Entry>) {
    forall i, j :: 0 <= i < j < |es| ==> less(es[i].ch, es[j].ch)
  }

  ghost predicate ChildrenWellFormed(less: Less, es: seq<Entry>) {
    forall i :: 0 <= i < |es| ==> WellFormed(less, es[i].child)
  }

  lemma {:induction false} AboveEntries(less: Less, c: char, t: Tree)
    ensures Above(less, c, t) <==> forall m :: 0 <= m < |Entries(t)| ==> less(c, Entries(t)[m].ch)
    decreases t
  {
    if t.Node? {
      AboveEntries(less, c, t.next);
      EntriesCons(t);
      var es, fs := Entries(t), Entries(t.next);
      if forall m :: 0 <= m < |es| ==> less(c, es[m].ch) {
        assert less(c, es[0].ch);
        forall m | 0 <= m < |fs| ensures less(c, fs[m].ch) {
          assert es[m + 1] == fs[m];
        }
      }
      if Above(less, c, t) {
        forall m | 0 <= m < |es| ensures less(c, es[m].ch) {
          if m == 0 {
            assert es[0] == EntryOf(t);
          } else {
            assert es[m] == fs[m - 1] && less(c, fs[m - 1].ch);
          }
        }
      }
    }
  }

  /** The invariant level by level: a chain is well formed exactly when its entries are
      sorted and every entry's child chain is well formed. */
  lemma {:induction false} WellFormedLevel(less: Less, t: Tree)
    ensures WellFormed(less, t) <==> Sorted(less, Entries(t)) && ChildrenWellFormed(less, Entries(t))
    decreases t
  {
    if t.Node? {
      WellFormedLevel(less, t.next);
      AboveEntries(less, t.ch, t.next);
      var es := Entries(t);
      assert forall m :: 1 <= m < |es| ==> es[m] == Entries(t.next)[m - 1];
      if Sorted(less, es) && ChildrenWellFormed(less, es) {
        assert Sorted(less, Entries(t.next)) by {
          forall i, j | 0 <= i < j < |Entries(t.next)|
            ensures less(Entries(t.next)[i].ch, Entries(t.next)[j].ch)
          {
            assert es[i + 1] == Entries(t.next)[i] && es[j + 1] == Entries(t.next)[j];
          }
        }
        assert ChildrenWellFormed(less, Entries(t.next)) by {
          forall i | 0 <= i < |Entries(t.next)| ensures WellFormed(less, Entries(t.next)[i].child) {
            assert es[i + 1] == Entries(t.next)[i];
          }
        }
        assert es[0].child == t.child;
        forall m | 0 <= m < |Entries(t.next)| ensures less(t.ch, Entries(t.next)[m].ch) {
          assert es[0].ch == t.ch && es[m + 1] == Entries(t.next)[m];
        }
      }
    }
  }

  /** With a strict weak order, a sorted level holds at most one entry equivalent to any
      character, so the first equivalent entry is the only one. */
  lemma SortedIndexOf(less: Less, es: seq<Entry>, c: char, j: nat)
    requires StrictWeakOrder(less) && Sorted(less, es)
    requires j < |es| && IsEqual(less, es[j].ch, c)
    ensures IndexOf(less, es, c) == Some(j)
  {
    var r := IndexOf(less, es, c);
    if r != Some(j) {
      var i := r.value;
      CharOrder.StrictWeakOrderWrappers(less, es[i].ch, c, es[j].ch);
      CharOrder.StrictWeakOrderWrappers(less, c, es[j].ch, es[i].ch);
      CharOrder.StrictWeakOrderWrappers(less, es[i].ch, es[j].ch, c);
      assert false;
    }
  }

  /** Equivalent characters find the same entry. */
  lemma IndexOfEquivalent(less: Less, es: seq<Entry>, a: char, b: char)
    requires StrictWeakOrder(less) && IsEqual(less, a, b)
    ensures IndexOf(less, es, a) == IndexOf(less, es, b)
    decreases |es|
  {
    if |es| > 0 {
      CharOrder.StrictWeakOrderWrappers(less, es[0].ch, a, b);
      CharOrder.StrictWeakOrderWrappers(less, es[0].ch, b, a);
      CharOrder.StrictWeakOrderWrappers(less, a, b, es[0].ch);
      IndexOfEquivalent(less, es[1..], a, b);
    }
  }

  /** In a sorted level, if everything before `p` orders before `c` and the entry at `p`
      orders after it, nothing in the level is equivalent to `c`. */
  lemma NoEquivalent(less: Less, es: seq<Entry>, c: char, p: nat)
    requires StrictWeakOrder(less) && Sorted(less, es) && p <= |es|
    requires forall m :: 0 <= m < p ==> IsLess(less, es[m].ch, c)
    requires p < |es| ==> less(c, es[p].ch)
    ensures forall m :: p <= m < |es| ==> less(c, es[m].ch)
    ensures IndexOf(less, es, c).None?
  {
    forall m | 0 <= m < |es| ensures !IsEqual(less, es[m].ch, c) {
      CharOrder.StrictWeakOrderWrappers(less, es[m].ch, c, c);
      if p < m {
        assert less(es[p].ch, es[m].ch);
      }
    }
  }

  /** The entry at the scan's stop position, when not equivalent, orders after `c`. */
  lemma StopOrdersAfter(less: Less, es: seq<Entry>, c: char, p: nat)
    requires StrictWeakOrder(less) && p < |es|
    requires !IsLess(less, es[p].ch, c) && !IsEqual(less, es[p].ch, c)
    ensures less(c, es[p].ch)
  {
    CharOrder.StrictWeakOrderWrappers(less, es[p].ch, c, c);
  }

  /** Inserting at a position that respects the order keeps a level sorted. */
  lemma InsertSorted(less: Less, es: seq<Entry>, p: nat, e: Entry)
    requires StrictWeakOrder(less) && Sorted(less, es) && p <= |es|
    requires forall m :: 0 <= m < p ==> less(es[m].ch, e.ch)
    requires forall m :: p <= m < |es| ==> less(e.ch, es[m].ch)
    ensures Sorted(less, Insert(es, p, e))
  {
    var r := Insert(es, p, e);
    forall i, j | 0 <= i < j < |r| ensures less(r[i].ch, r[j].ch) {
      if j < p {
        assert r[i] == es[i] && r[j] == es[j];
      } else if j == p {
        assert r[i] == es[i];
      } else if i < p {
        assert r[i] == es[i] && r[j] == es[j - 1];
      } else if i == p {
        assert r[j] == es[j - 1];
      } else {
        assert r[i] == es[i - 1] && r[j] == es[j - 1];
      }
    }
  }

  /** `getBrother` keeps a sorted level sorted, and the node it returns is the level's
      (only) entry equivalent to the requested character; a null result or a newly
      created node means no equivalent entry was there before. */
  lemma GetBrotherKeepsOrder(less: Less, self: Tree, c: char, create: bool)
    requires StrictWeakOrder(less) && self.Node? && Sorted(less, Entries(self))
    ensures var r := GetBrother(less, self, c, create);
            && Sorted(less, Entries(r.chain))
            && (r.found.Some? ==> r.found == IndexOf(less, Entries(r.chain), c))
            && (r.found.None? || r.created ==> IndexOf(less, Entries(self), c).None?)
  {
    var es := Entries(self);
    var r := GetBrother(less, self, c, create);
    var e := Entry(c, Undefined, Nil);
    if IsLess(less, c, self.ch) {
      assert Entries(r.chain) == Insert(es, 0, e);
      NoEquivalent(less, es, c, 0);
      InsertSorted(less, es, 0, e);
      SortedIndexOf(less, Entries(r.chain), c, 0);
    } else if IsEqual(less, c, self.ch) {
      SortedIndexOf(less, es, c, 0);
    } else {
      var p := LowerBoundIndex(less, es, c);
      if p < |es| && IsEqual(less, es[p].ch, c) {
        SortedIndexOf(less, es, c, p);
      } else {
        if p < |es| {
          StopOrdersAfter(less, es, c, p);
        }
        NoEquivalent(less, es, c, p);
        if create {
          forall m | 0 <= m < p ensures less(es[m].ch, c) {
            CharOrder.StrictWeakOrderWrappers(less, es[m].ch, c, c);
          }
          InsertSorted(less, es, p, e);
          SortedIndexOf(less, Entries(r.chain), c, p);
        }
      }
    }
  }

  /** Removing one entry keeps a level sorted. */
  lemma RemoveSorted(less: Less, es: seq<Entry>, j: nat)
    requires Sorted(less, es) && j < |es|
    ensures Sorted(less, es[..j] + es[j + 1..])
  {
    var r := es[..j] + es[j + 1..];
    forall a, b | 0 <= a < b < |r| ensures less(r[a].ch, r[b].ch) {
      var a' := if a < j then a else a + 1;
      var b' := if b < j then b else b + 1;
      assert r[a] == es[a'] && r[b] == es[b'];
    }
  }

  /** Two levels whose characters agree position by position. */
  predicate SameChars(es: seq<Entry>, fs: seq<Entry>) {
    |es| == |fs| && forall m :: 0 <= m < |es| ==> es[m].ch == fs[m].ch
  }

  /** The search only looks at characters. */
  lemma IndexOfSameChars(less: Less, es: seq<Entry>, fs: seq<Entry>, c: char)
    requires SameChars(es, fs)
    ensures IndexOf(less, es, c) == IndexOf(less, fs, c)
    decreases |es|
  {
    if |es| > 0 {
      IndexOfSameChars(less, es[1..], fs[1..], c);
    }
  }

  lemma SortedSameChars(less: Less, es: seq<Entry>, fs: seq<Entry>)
    requires SameChars(es, fs) && Sorted(less, es)
    ensures Sorted(less, fs)
  {
  }

  /** Every node along a well-formed chain heads a well-formed chain. */
  lemma {:induction false} SiblingWellFormed(less: Less, t: Tree, i: nat)
    requires WellFormed(less, t)
    ensures WellFormed(less, Sibling(t, i))
    decreases i
  {
    if t.Node? && i > 0 {
      SiblingWellFormed(less, t.next, i - 1);
    }
  }
}
