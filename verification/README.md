# CharTrie in Dafny

A model of the CharTrie container: a header-only C++ trie that maps character strings to values.
- **Tree shape.** Each tree node holds one character, a value and two links. The `next` link goes to the node's next sibling. The `child` link goes to the first node of the level below.
- **Keys.** A key is stored along the path of its characters from a root node whose character is NUL.
- **Ordering and equivalence.** Siblings are kept in ascending order under a character comparator (`KeyCharLess`). Two characters are the same key character when neither is less than the other. The default comparator `compare_no_case` compares lower-cased characters, so "alfa" and "aLfa" are one key.
- **Absent values.** A node without a value holds the undefined value, -1 for `int`.
- **Keys as arguments.** The trie takes keys as `StringOfChars` objects. These are a NUL-terminated buffer (`StringOfCharsZeroEnd`) or a plain character vector (`StringOfCharsFixedLen`).

The model is split into modules that follow the source:

- **`CStrings`**: a C character pointer and `GetStrLen`.
- **`ZeroEndStrings`, `FixedLenStrings`, `KeyStrings`**: the two string classes. `KeyStrings` covers their common `StringOfChars` interface and assignment between them.
- **`CharOrder`**:
  - the undefined value;
  - `compare_no_case`, folding ASCII letters;
  - the node's `isLess` / `isEqual` wrappers;
  - the laws of a strict weak order.
- **`Nodes`**:
  - the tree as an immutable first-child/next-sibling datatype;
  - `getBrother`, `removeBrother` and `getChild`;
  - the well-formedness invariant: every sibling chain sorted, at every level.
- **`Contents`**: what a tree stores, as a lookup function from keys to values. This is the reference every trie operation is proved against.
- **`Walks`**: `intGetNode`. Its callers write through the node pointer it returns; here that write is an `Edit` applied at the node the walk reaches, and the result is the new tree plus the node path.
- **`Removals`**: what `removeKey` as written does to the stored values. A walk changes only the level of the node it reaches, and `removeBrother` rearranges that level in one of its two ways.
- **`Tries`**:
  - `intGetRoot` / `intResetRoot`;
  - `addKeyValue`, `find`, `removeKey`, `lower_bound`, `cbegin` and `cend`.
- **`Iterators`**:
  - `const_iterator` as a stack of frames, plus `operator++`, `getString` and `getValue`;
  - the sequence of (key, value) items an iteration yields.
- **`Enumeration`**: a full iteration lists each stored pair once, in ascending key order.
- **`Scenarios`**: small concrete tries that show the behaviour, including the inputs behind the findings below.

The source's `TValueType` is `int` here, and the undefined value is -1. The character type is Dafny's `char`.

## Model

| member | source | states |
|---|---|---|
| CStrings.GetStrLen | CharTrie/TrieStrings.h:103-107 | the length is the index of the first NUL, and no NUL comes before it |
| CStrings.CharsBeforeNul | CharTrie/TrieStrings.h:119-122 | a null pointer reads as the empty string; otherwise the characters are exactly the buffer's prefix up to its terminating NUL |
| ZeroEndStrings.IntAssign | CharTrie/TrieStrings.h:235-240 | the buffer holds the first n source characters followed by one NUL; `length()` is n, `at(i)` gives character i below n and the NUL at n, and `empty()` holds exactly when n is 0 |
| ZeroEndStrings.Assign | CharTrie/TrieStrings.h:173-176 | assigning from a C string keeps the characters before its NUL; a null pointer gives the empty string |
| ZeroEndStrings.AssignN | CharTrie/TrieStrings.h:181-184 | assigning a buffer with a count keeps exactly that many leading characters |
| ZeroEndStrings.Clear | CharTrie/TrieStrings.h:158-161 | after `clear()` the string is empty, has length 0, and position 0 holds the terminator |
| ZeroEndStrings.AppendChar | CharTrie/TrieStrings.h:189-194 | appending lengthens the string by one and puts the character at the old end; earlier characters are unchanged and the string is no longer empty |
| ZeroEndStrings.AtBounds | CharTrie/TrieStrings.h:227-230 | `at(i)` is character i below the length, the terminator at the length, and out of range exactly beyond it |
| FixedLenStrings.IntAssign | CharTrie/TrieStrings.h:364-369 | the vector holds exactly the first n source characters, with no terminator: `at(i)` is out of range from n on, and `empty()` holds exactly when n is 0 |
| FixedLenStrings.Assign | CharTrie/TrieStrings.h:305-308 | assigning from a C string keeps the characters before its NUL; a null pointer gives the empty string |
| FixedLenStrings.Clear | CharTrie/TrieStrings.h:291-294 | after `clear()` the string is empty, with no character at position 0 |
| FixedLenStrings.AppendChar | CharTrie/TrieStrings.h:321-324 | appending lengthens the string by one and puts the character at the old end; earlier characters are unchanged |
| KeyStrings.Chars | CharTrie/TrieStrings.h:218-221 | a key's characters agree with `length()` and with `at(i)` at every position |
| KeyStrings.AssignToZeroEnd | CharTrie/TrieStrings.h:140-143 | assigning any `StringOfChars` to a zero-terminated string copies its length and every character |
| KeyStrings.AssignToFixedLen | CharTrie/TrieStrings.h:271-276 | assigning any `StringOfChars` to a fixed-length string copies its length and every character |
| KeyStrings.SelfAssignZeroEnd | CharTrie/TrieStrings.h:235-240 | when the source buffer is the string's own buffer, the length is kept but every character becomes NUL |
| KeyStrings.SelfAssignFixedLen | CharTrie/TrieStrings.h:364-369 | when the source buffer is the string's own buffer, the length is kept but every character becomes NUL |
| KeyStrings.SelfAssignZeroEndLosesChars | CharTrie/TrieStrings.h:140-143 | assigning a string with a non-NUL character to itself through the base-class `operator=` (`s = static_cast<const StringOfChars<char>&>(s)`) changes the string and loses that character |
| KeyStrings.SelfAssignFixedLenLosesChars | CharTrie/TrieStrings.h:271-276 | assigning a string with a non-NUL character to itself through the base-class `operator=` (`s = static_cast<const StringOfChars<char>&>(s)`) changes the string and loses that character |
| KeyStrings.SelfAssignZeroEndIntended | CharTrie/TrieStrings.h:140-143 | a copying assignment from the string itself leaves it unchanged |
| KeyStrings.SelfAssignFixedLenIntended | CharTrie/TrieStrings.h:271-276 | a copying assignment from the string itself leaves it unchanged |
| KeyStrings.SelfAssignExample | CharTrie/TrieStrings.h:235-240 | "ab" assigned to itself becomes three NULs; the copying assignment keeps "ab" |
| CharOrder.CompareNoCaseOrder | CharTrie/TrieData.h:24-30 | `compare_no_case` is a strict weak order, and two characters are equivalent under it exactly when their lower-case forms agree |
| CharOrder.WrapperLaws | CharTrie/TrieData.h:529-542 | for any comparator: `isLess` is irreflexive; `isEqual` is reflexive and symmetric, means mutual non-less on distinct characters, and excludes `isLess` |
| CharOrder.StrictWeakOrderWrappers | CharTrie/TrieData.h:529-542 | under a strict weak order, `isLess` is the comparator and `isEqual` is incomparability, which is transitive; exactly one of less, equal and greater holds |
| CharOrder.LessRespectsEquivalence | CharTrie/TrieData.h:529-542 | replacing either argument of the order by an equivalent character keeps it |
| Nodes.Scan | CharTrie/TrieData.h:407-444 | the forward scan stops at the first sibling not less than the character. It returns that sibling when it is equivalent; otherwise it either inserts a fresh valueless node there (when creating) or reports nothing found |
| Nodes.GetBrother | CharTrie/TrieData.h:379-448 | a character below the chain's head takes over the head, with a clone of the old head as its next sibling. An equivalent head is returned as is; otherwise the scan's outcome is returned. Whatever is found is equivalent to the character, and when creating something is always found |
| Nodes.GetBrotherKeepsOrder | CharTrie/TrieData.h:379-448 | on a sorted chain the result stays sorted. The position found is that of the first equivalent sibling. When nothing is found, or a node is created, the chain held no equivalent sibling |
| Nodes.Unlink | CharTrie/TrieData.h:465-483 | the loop removes the first sibling equivalent to the character and returns it detached; when there is none the chain is unchanged |
| Nodes.RemoveBrother | CharTrie/TrieData.h:453-487 | as written: if the node's first child matches, it is removed and the node's own next chain is moved under the node. Otherwise the node's own next siblings are searched. It reports nothing removed exactly when neither matches |
| Nodes.GetChild | CharTrie/TrieData.h:510-523 | returns the child chain; a missing child is created as a blank node exactly when `create` is set, and nothing else of the node changes |
| Nodes.IndexOf | CharTrie/TrieData.h:538-542 | the position of the first sibling `isEqual` to the character, or none when no sibling is |
| Walks.Apply | CharTrie/TrieData.h:558-573 | the caller's write at the node reached: keeping it, setting its value, or detaching the first child equivalent to a character, which returns it. Nothing else of the node changes |
| Walks.ApplyContents | CharTrie/TrieData.h:558-573 | each non-structural write keeps the node well formed and changes the stored values exactly as described by the edit |
| Walks.GetNode | CharTrie/TrieData.h:705-746 | the walk returns either no path or one node per key character plus the starting node. When creating it always succeeds, and the top node's identity is kept |
| Walks.GetNodeContents | CharTrie/TrieData.h:705-746 | on a well-formed tree the result is well formed. When the key resolves, only values under keys extending it change, as the edit says, and the path ends at the key's node. When it does not resolve, nothing at or below the key was stored |
| Walks.GetNodeFusion | CharTrie/TrieData.h:705-746 | walking with an edit ends at the node a plain walk ends at, with the edit applied to it |
| Walks.GetNodeLinked | CharTrie/TrieData.h:715-741 | each node on the returned path sits in the child chain of the node before it |
| Tries.GetRootKeepsContents | CharTrie/TrieData.h:669-676 | getting the root creates it when absent, gives it the NUL character, and changes no stored value |
| Tries.ResetRootEmpties | CharTrie/TrieData.h:680-685 | after resetting, the trie is valid and stores nothing |
| Tries.WalkContents | CharTrie/TrieData.h:705-746 | the walk from the root keeps the trie valid and changes exactly the values under the key, as the edit says; an unresolved key had nothing stored at or below it |
| Tries.AddKeyValue | CharTrie/TrieData.h:558-573 | the returned node holds the new value and the root exists |
| Tries.AddKeyValueContents | CharTrie/TrieData.h:558-573 | after adding, every key equivalent to the added key maps to the new value, every other key keeps its value, and the trie stays valid |
| Tries.FindContents | CharTrie/TrieData.h:609-619 | `find` answers the value stored under the key, or the undefined value. It may create the root and insert valueless nodes when a key character sorts below a chain's head, but no stored value changes |
| Tries.AddThenFind | CharTrie/TrieData.h:609-619 | `find` after `addKeyValue` gives the new value for keys equivalent to the added one and the old answer for every other key |
| Tries.RemoveKeyOutcome | CharTrie/TrieData.h:576-606 | as written: the empty key clears the trie. Otherwise it succeeds exactly when the node for the key minus its last character exists and either its first child or one of its own next siblings matches the last character |
| Tries.RemoveKeyIntendedContents | CharTrie/TrieData.h:576-606 | intended removal erases exactly the keys extending the key, keeps every other value and the validity, and succeeds exactly when the key's node existed |
| Tries.RemoveKeyContents | CharTrie/TrieData.h:576-606 | as written, with p the key minus its last character c: the trie stays valid and keys not extending p's parent keep their values. If p's node has a first child equivalent to c, a key p + rest reads what the parent's key + rest stored when rest starts with a character ordered after p's last one, and nothing otherwise; keys through p's next sibling are lost; nothing else changes. Otherwise exactly the keys through the removed sibling equivalent to c are lost |
| Removals.GetNodeGraft | CharTrie/TrieData.h:705-746 | whatever the write at the walk's end, only the level holding the reached node changes: keys through that level read the level as written back, and every other key keeps its value |
| Removals.RootRemoval | CharTrie/TrieData.h:453-487 | on the root, whose next sibling is null: the first branch leaves a root without children, which keeps only the empty key's value; the second finds nothing to remove |
| Removals.HeadLevelLookup | CharTrie/TrieData.h:457-462 | in a sorted level, the first branch at entry j makes keys through entry j read the entries after it (for characters ordered after entry j's only), loses the keys through entry j + 1, and keeps every other key |
| Removals.SiblingLevel | CharTrie/TrieData.h:463-483 | the second branch at entry j removes from the level the entry equivalent to c found after entry j, or leaves the level unchanged when there is none |
| Removals.RemovalValues | CharTrie/TrieData.h:453-487 | below the root the tree stays well formed; after the first branch the values change as `HeadRemoved` says, and otherwise exactly the keys through the removed sibling lose their values |
| Tries.LowerBoundPosition | CharTrie/TrieData.h:622-627 | `lower_bound` leaves the values unchanged. It designates the key's node, with the stored value on top and one frame per level, all still due to enter their children; it is the end iterator only when nothing is stored at or below the key |
| Tries.LowerBoundIntendedTail | CharTrie/TrieData.h:622-627 | iterating from the corrected `lower_bound` yields the position and then exactly an end part of the trie's full enumeration: no repeats and no skips |
| Tries.PathFrames | CharTrie/TrieData.h:756-765 | the corrected frames for a path: every ancestor has already entered its children, and only the top node has not |
| Tries.CEnd | CharTrie/TrieData.h:641-646 | the end iterator is the empty stack |
| Tries.EnumerateIntended | CharTrie/TrieData.h:630-638 | iterating from `cbegin()` with the corrected advance yields the trie's items in order: each node's own pair, then its children's, then its siblings' |
| Tries.EnumerateAsWritten | CharTrie/TrieData.h:630-638 | as written, every node that holds a value and has children is yielded a second time right after them; when the root holds a value and has children, it comes last, once |
| Iterators.FromNodes | CharTrie/TrieData.h:756-765 | the iterator built from a path has one frame per node, each still due to enter its children |
| Iterators.Step | CharTrie/TrieData.h:860-888 | one pass of the inner loop: if the top's children are due, it marks them entered and pushes the first child; otherwise it moves to the next sibling, and failing that it pops |
| Iterators.StepDecreases | CharTrie/TrieData.h:860-888 | each pass strictly shrinks the remaining work, so `operator++` terminates |
| Iterators.Advance | CharTrie/TrieData.h:853-894 | as written, `++` stops at the end or at a node holding a value, after strictly progressing |
| Iterators.AdvanceIntended | CharTrie/TrieData.h:853-894 | the corrected `++` also stops only at the end or at a node holding a value, and strictly progresses |
| Iterators.GetString | CharTrie/TrieData.h:802-818 | the key is the concatenation of the frames' characters from the root down, without any NUL character |
| Iterators.StepPending | CharTrie/TrieData.h:860-888 | with the corrected advance, each step moves the items still to come to the new top, or drops nothing on a pop |
| Iterators.StepPendingAsWritten | CharTrie/TrieData.h:860-888 | as written, every step, pops included, puts the new top's pair back in front of what is still to come |
| Iterators.RunIntendedPending | CharTrie/TrieData.h:853-894 | iterating to the end with the corrected `++` yields exactly the items still pending below and beside the current position |
| Iterators.RunPendingAsWritten | CharTrie/TrieData.h:853-894 | iterating to the end as written yields the pending items, with each parent that holds a value repeated after its children |
| Enumeration.ItemsAscending | CharTrie/TrieData.h:407-444 | in a well-formed tree the items come in strictly ascending key order |
| Enumeration.ItemsSound | CharTrie/TrieData.h:609-619 | every listed item has a defined value, and `find` gives that value for its key |
| Enumeration.ItemsComplete | CharTrie/TrieData.h:609-619 | every key that `find` answers with a defined value is listed, under an equivalent key, with that value |
| Enumeration.EnumerationContents | CharTrie/TrieData.h:630-646 | a full corrected iteration lists each stored non-empty key once, with its value, in ascending key order, and lists nothing else |
| Scenarios.CaseInsensitiveOverwrite | CharTrie/CharTrie.cpp:14-24 | with `compare_no_case`, adding "alfa" and then "aLfa" overwrites: "ALFA" finds the second value, and a key differing in a letter is unaffected |
| Scenarios.RemoveKeyExample | CharTrie/TrieData.h:453-487 | on a→1, b→2: as written, removing "b" fails and removing "a" also loses "b"; the corrected removal of "b" removes only it. On xa→1, y→2, removing "xa" keeps xy→2 and loses xa and y |
| Scenarios.EnumerateExample | CharTrie/TrieData.h:853-894 | on a→1, ab→2: as written the iteration lists a, ab, a; corrected, it lists a, ab |
| Scenarios.LowerBoundExample | CharTrie/TrieData.h:622-627 | on ab→1: as written, iterating from `lower_bound("ab")` lists ab three times; corrected, once |

## Left out

- **Allocation and ownership.** Memory management is not modelled: node allocation, `delete`, the destructor, copy and move construction. The model works on immutable values, so sharing and the leak of detached nodes are invisible.
- **Locale-dependent `tolower`.** `compare_no_case` calls it; the model folds ASCII 'A'-'Z' only. Non-ASCII keys such as the Cyrillic ones in `CharTrie.cpp` are re-created with ASCII letters in `Scenarios`.
- **Generic `get_undefined_value`.** The unspecialised version only fails to compile. The model fixes the value type to `int` and the undefined value to -1.
- **`HaveValue`.** It is modelled as written: true for the undefined value. It has no contract of its own; its effect appears in `Iterators.Advance`, whose loop continues while the top node holds no value.
- **The `operator=` return value.** `StringOfCharsZeroEnd::operator=` has no `return` statement. Only its effect on the string is modelled.
- **Memory management of strings.** `reserve` only pre-allocates and does not change contents, so it is omitted. Copying via `&m_buf[0]` on an empty vector is a memory-level concern and is not modelled.
- Iterators.GetString: the `m_string` cache. `Iterators.GetString` recomputes the key from the frames each time. The source caches the key in `m_string`, and that cache changes behaviour: `const_iterator::operator=` (TrieData.h:832-838) copies `m_path` but keeps the old `m_string`, so `getString()` after an assignment can return the previous position's key. The cache and iterator assignment are not modelled.
- **Moved-from strings.** A moved-from `StringOfCharsZeroEnd` has an empty buffer and `length()` would underflow. `ZeroEndStrings.Length` requires a non-empty buffer, and every string the model builds has one.
- **`cbegin()` on a trie without a root.** It dereferences a null pointer. `Tries.CBegin` requires the root to exist.
- Tries.LowerBound: const-ness. `find` is not `const` (TrieData.h:210). `lower_bound` is declared `const` (TrieData.h:219) but calls the non-const `intGetNode` (TrieData.h:238, 626), so its body is ill-formed once the template is instantiated; `CharTrie.cpp` never calls it. `Tries.LowerBound` models the body as if that call compiled. Like `Tries.Find`, it returns the possibly relabelled trie the walk leaves behind, and the model proves that no stored value changed.
- Nodes.RemoveBrother: node sharing after its first branch. When the first child matches (TrieData.h:459-461), the node's new child is its old next sibling N1, and its new `next` is N1's next sibling N2. N1 keeps its link to N2, so N2 is reachable both as `self->m_next` and as `self->m_child->m_next`. The model's immutable trees hold two equal copies of N2 instead. After such a removal, writes through one of the two links and destruction are not modelled faithfully: `~Node` (TrieData.h:310-317) deletes N2 twice.
- **Iterator comparison.** It compares node pointers. Modelled iterators are compared by their frames, and the end iterator is the empty stack.
- Enumeration.EnumerationContents: NUL characters. It requires keys without NUL characters, because `getString` drops NULs, so such a key is listed under a shorter name.
- Enumeration.EnumerationContents: the root's pair. It speaks of non-empty keys only. `cbegin()` starts after the root, so a value stored under the empty key is never listed.
- Tries.LowerBoundIntendedTail: it states a suffix of the full enumeration, not which items precede the position in key order.
- **The converter and the demo program.** `FileConverter` and the demo `main` in `CharTrie.cpp` are I/O programs around the container. Only the demo's case-insensitive overwrite is modelled, by `Scenarios.CaseInsensitiveOverwrite`.
- **Wide characters.** `wchar_t` and `GetStrLen(const wchar_t*)` are left out: Dafny's `char` stands for both character types.

## Findings

| source | as written | input that shows it | evidently intended | confidence | as-written member | corrected member |
|---|---|---|---|---|---|---|
| CharTrie/TrieData.h:453-487 | `removeKey` calls `removeBrother` on the node for the key minus its last character. That function checks only that node's first child, and on a match moves the node's own `next` chain under it, dropping the child's siblings. Otherwise it searches the node's own siblings, not its children | trie a→1, b→2: `removeKey("b")` returns false and keeps b; `removeKey("a")` returns true and also loses b; trie xa→1, y→2: `removeKey("xa")` keeps xy→2 and loses xa and y | detach the child equivalent to the last character, with its subtree, and nothing else | not executed | Scenarios.RemoveKeyExample | Tries.RemoveKeyIntendedContents |
| CharTrie/TrieData.h:853-894 | after a pop, `operator++` stops at the ancestor it returns to whenever that ancestor holds a value. That ancestor was already visited before its children | trie a→1, ab→2: iterating from `cbegin()` lists a, ab, a | never stop on the node a pop returns to | not executed | Scenarios.EnumerateExample | Enumeration.EnumerationContents |
| CharTrie/TrieData.h:756-765 | the iterator `lower_bound` builds has `bToChild` still true in every frame, ancestors included, so advancing re-enters each ancestor's child chain | trie ab→1: iterating from `lower_bound("ab")` lists ab three times | ancestors' frames already entered, as `cbegin` leaves them | not executed | Scenarios.LowerBoundExample | Tries.LowerBoundIntendedTail |
| CharTrie/TrieStrings.h:235-240 | `intAssign` zero-fills its buffer before copying from the source. When the source is the string itself, the copy reads zeros. A plain `s = s` does not compile: the declared move constructor and move assignment (TrieStrings.h:38, 42) delete the implicit copy assignment, which overload resolution picks. The self-assignment goes through the base-class overload, as in `s = static_cast<const StringOfChars<char>&>(s)`. That overload (TrieStrings.h:140-143) also lacks its `return *this` | `s = static_cast<const StringOfChars<char>&>(s)` on "ab" gives a string of two NULs | self-assignment leaves the string unchanged | not executed | KeyStrings.SelfAssignZeroEndLosesChars | KeyStrings.SelfAssignZeroEndIntended |
