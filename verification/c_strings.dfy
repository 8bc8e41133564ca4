/** Raw character buffers as the key strings receive them: a pointer that is either
    null or points at readable memory, and the C length of a NUL-terminated buffer
    (CharTrie/TrieStrings.h, GetStrLen). */
module CStrings {

  /** The terminating character of a zero-ended buffer. */
  const Nul: char := '\0'

  /** A `const TCharType*`: null, or the characters readable from the pointer onward. */
  datatype CharPtr = Null | Points(mem: seq<char>)

  /** `strlen`/`wcslen`: the number of characters before the first NUL.
      The C functions read until they meet a NUL, so one must be readable. */
  function GetStrLen(mem: seq<char>): (n: nat)
    requires Nul in mem
    ensures n < |mem| && mem[n] == Nul
    ensures forall i :: 0 <= i < n ==> mem[i] != Nul
  {
    if mem[0] == Nul then 0
    else
      assert mem == [mem[0]] + mem[1..];
      1 + GetStrLen(mem[1..])
  }

  /** Zero-terminated memory a pointer may be handed to `assign(const TCharType*)` with. */
  predicate Terminated(p: CharPtr) {
    p.Points? ==> Nul in p.mem
  }

  /** The characters `assign(const TCharType*)` takes from a pointer: those before the
      first NUL, or none for a null pointer. */
  function CharsBeforeNul(p: CharPtr): (s: seq<char>)
    requires Terminated(p)
    ensures Nul !in s
    ensures p.Points? ==> |s| < |p.mem| && s == p.mem[..|s|] && p.mem[|s|] == Nul
    ensures p.Null? ==> s == []
  {
    if p.Null? then [] else p.mem[..GetStrLen(p.mem)]
  }
}
