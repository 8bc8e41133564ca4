/** `StringOfCharsFixedLen` (CharTrie/TrieStrings.h): a vector holding exactly the
    characters, without a terminator. */
module FixedLenStrings {
  import opened Options
  import opened CStrings

  datatype FixedLen = FixedLen(buf: seq<char>)

  /** `length()`. */
  function Length(s: FixedLen): nat {
    |s.buf|
  }

  /** `empty()`. */
  predicate Empty(s: FixedLen) {
    |s.buf| == 0
  }

  /** `at(i)`: bounds-checked; `None` stands for the `out_of_range` it throws. */
  function At(s: FixedLen, i: nat): Option<char> {
    if i < |s.buf| then Some(s.buf[i]) else None
  }

  /** `intAssign(buf, n)`: clear, resize to `n`, copy `n` characters of `buf`, which is
      memory the string does not own. */
  function IntAssign(src: seq<char>, n: nat): (r: FixedLen)
    requires n <= |src|
    ensures Length(r) == n
    ensures forall i :: 0 <= i < n ==> At(r, i) == Some(src[i])
    ensures forall i :: n <= i ==> At(r, i).None?
    ensures Empty(r) <==> n == 0
  {
    FixedLen(src[..n])
  }

  /** `assign(const TCharType*)`: the characters up to the first NUL, or none for null. */
  function Assign(p: CharPtr): (r: FixedLen)
    requires Terminated(p)
    ensures Nul !in r.buf
    ensures p.Null? ==> Empty(r)
    ensures p.Points? ==> r.buf == p.mem[..GetStrLen(p.mem)]
  {
    IntAssign(CharsBeforeNul(p), |CharsBeforeNul(p)|)
  }

  /** `clear()`: `intAssign(nullptr, 0)`. */
  function Clear(): (r: FixedLen)
    ensures Empty(r) && Length(r) == 0 && At(r, 0).None?
  {
    IntAssign([], 0)
  }

  /** `appendChar(c)`: `push_back`. */
  function AppendChar(s: FixedLen, c: char): (r: FixedLen)
    ensures Length(r) == Length(s) + 1
    ensures At(r, Length(s)) == Some(c)
    ensures forall i :: 0 <= i < Length(s) ==> At(r, i) == At(s, i)
    ensures !Empty(r)
  {
    FixedLen(s.buf + [c])
  }
}
