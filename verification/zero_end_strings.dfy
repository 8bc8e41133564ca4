/** `StringOfCharsZeroEnd` (CharTrie/TrieStrings.h): a vector holding the characters
    followed by one terminating NUL, so `length()` is the vector size minus one. */
module ZeroEndStrings {
  import opened Options
  import opened CStrings

  datatype ZeroEnd = ZeroEnd(buf: seq<char>)

  /** The buffer invariant every assignment establishes: a trailing terminator.
      (A moved-from string has an empty buffer and breaks it.) */
  predicate Valid(s: ZeroEnd) {
    |s.buf| > 0 && s.buf[|s.buf| - 1] == Nul
  }

  /** `length()`: the size minus one; on an empty (moved-from) buffer the C++ size_t
      subtraction wraps, so the model asks for a non-empty buffer. */
  function Length(s: ZeroEnd): nat
    requires |s.buf| > 0
  {
    |s.buf| - 1
  }

  /** `empty()`: the terminator is always there, so fewer than two entries means no characters. */
  predicate Empty(s: ZeroEnd) {
    |s.buf| < 2
  }

  /** `at(i)`: `vector::at` is bounds-checked; `None` stands for the `out_of_range` it throws. */
  function At(s: ZeroEnd, i: nat): Option<char> {
    if i < |s.buf| then Some(s.buf[i]) else None
  }

  /** The characters of the string, without the terminator. */
  function Chars(s: ZeroEnd): seq<char>
    requires |s.buf| > 0
  {
    s.buf[..|s.buf| - 1]
  }

  /** `intAssign(buf, n)`: clear, resize to `n + 1` zero characters, copy `n` characters
      of `buf` over the front. `buf` is memory the string does not own. */
  function IntAssign(src: seq<char>, n: nat): (r: ZeroEnd)
    requires n <= |src|
    ensures Valid(r) && Length(r) == n
    ensures Chars(r) == src[..n]
    ensures forall i :: 0 <= i < n ==> At(r, i) == Some(src[i])
    ensures At(r, n) == Some(Nul) && forall i :: n < i ==> At(r, i).None?
    ensures Empty(r) <==> n == 0
  {
    ZeroEnd(src[..n] + [Nul])
  }

  /** The constructor from a zero-ended buffer and `assign(const TCharType*)`: the
      characters up to the first NUL (measured by `GetStrLen`), or none for null. */
  function Assign(p: CharPtr): (r: ZeroEnd)
    requires Terminated(p)
    ensures Valid(r) && Nul !in Chars(r)
    ensures p.Null? ==> Empty(r)
    ensures p.Points? ==> Chars(r) == p.mem[..GetStrLen(p.mem)]
  {
    IntAssign(CharsBeforeNul(p), |CharsBeforeNul(p)|)
  }

  /** `assign(buf, length)`. */
  function AssignN(src: seq<char>, n: nat): (r: ZeroEnd)
    requires n <= |src|
    ensures Valid(r) && Chars(r) == src[..n]
  {
    IntAssign(src, n)
  }

  /** `clear()`: `intAssign(nullptr, 0)`, leaving only the terminator. */
  function Clear(): (r: ZeroEnd)
    ensures Valid(r) && Empty(r) && Length(r) == 0
    ensures At(r, 0) == Some(Nul)
  {
    IntAssign([], 0)
  }

  /** `appendChar(c)`: drop the terminator, push `c`, push a new terminator. */
  function AppendChar(s: ZeroEnd, c: char): (r: ZeroEnd)
    requires Valid(s)
    ensures Valid(r) && Length(r) == Length(s) + 1
    ensures At(r, Length(s)) == Some(c)
    ensures forall i :: 0 <= i < Length(s) ==> At(r, i) == At(s, i)
    ensures Chars(r) == Chars(s) + [c]
    ensures !Empty(r)
  {
    ZeroEnd(s.buf[..|s.buf| - 1] + [c] + [Nul])
  }

  /** Reading through `at` on a valid string: every index up to `length()` answers
      (the last one with the terminator) and every index past it throws. */
  lemma AtBounds(s: ZeroEnd, i: nat)
    requires Valid(s)
    ensures i < Length(s) ==> At(s, i) == Some(Chars(s)[i])
    ensures i == Length(s) ==> At(s, i) == Some(Nul)
    ensures i > Length(s) <==> At(s, i).None?
  {
  }
}
