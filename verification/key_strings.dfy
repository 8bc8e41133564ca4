/** The abstract `StringOfChars` base (CharTrie/TrieStrings.h) over its two shapes, and
    the copy-assignment `operator=` each shape takes from any `StringOfChars`. */
module KeyStrings {
  import opened Options
  import opened CStrings
  import Z = ZeroEndStrings
  import F = FixedLenStrings

  datatype StringOfChars = ZeroEndKey(z: Z.ZeroEnd) | FixedLenKey(f: F.FixedLen)

  predicate Valid(k: StringOfChars) {
    k.ZeroEndKey? ==> Z.Valid(k.z)
  }

  /** The virtual `length()`. */
  function Length(k: StringOfChars): nat
    requires Valid(k)
  {
    match k
    case ZeroEndKey(z) => Z.Length(z)
    case FixedLenKey(f) => F.Length(f)
  }

  /** The virtual `at(i)`. */
  function At(k: StringOfChars, i: nat): Option<char> {
    match k
    case ZeroEndKey(z) => Z.At(z, i)
    case FixedLenKey(f) => F.At(f, i)
  }

  /** The virtual `getStr()`: the memory behind the data pointer. */
  function GetStr(k: StringOfChars): seq<char> {
    match k
    case ZeroEndKey(z) => z.buf
    case FixedLenKey(f) => f.buf
  }

  /** The `length()` characters a caller reads through `at`; this is all the trie sees of a key. */
  function Chars(k: StringOfChars): (s: seq<char>)
    requires Valid(k)
    ensures |s| == Length(k)
    ensures forall i :: 0 <= i < |s| ==> At(k, i) == Some(s[i])
  {
    GetStr(k)[..Length(k)]
  }

  /** `ZeroEnd::operator=(const StringOfChars&)`: `intAssign(other.getStr(), other.length())`
      where `other` is a different object. */
  function AssignToZeroEnd(other: StringOfChars): (r: Z.ZeroEnd)
    requires Valid(other)
    ensures Z.Valid(r) && Z.Length(r) == Length(other)
    ensures forall i :: 0 <= i < Length(other) ==> Z.At(r, i) == At(other, i)
    ensures Z.Chars(r) == Chars(other)
  {
    Z.IntAssign(GetStr(other), Length(other))
  }

  /** `FixedLen::operator=(const StringOfChars&)`, `other` a different object. */
  function AssignToFixedLen(other: StringOfChars): (r: F.FixedLen)
    requires Valid(other)
    ensures F.Length(r) == Length(other)
    ensures forall i :: 0 <= i < Length(other) ==> F.At(r, i) == At(other, i)
    ensures r.buf == Chars(other)
  {
    F.IntAssign(GetStr(other), Length(other))
  }

  /** `n` characters of value-initialised vector storage. */
  function Zeros(n: nat): (z: seq<char>)
    ensures |z| == n && forall i :: 0 <= i < n ==> z[i] == Nul
  {
    seq(n, _ => Nul)
  }

  /** `memcpy(dst, src, n)` on storage of at least `n` characters. */
  function Memcpy(dst: seq<char>, src: seq<char>, n: nat): (r: seq<char>)
    requires n <= |dst| && n <= |src|
    ensures |r| == |dst| && r[..n] == src[..n] && r[n..] == dst[n..]
  {
    src[..n] + dst[n..]
  }

  /** A ZeroEnd string assigned to itself through the base-class `operator=`
      (`s = static_cast<const StringOfChars<char>&>(s)`; a plain `s = s` selects the
      implicitly deleted copy assignment), as written: the source pointer is `s`'s own storage.
      `clear()` keeps that storage and `resize(n + 1, 0)` zero-fills it (no reallocation,
      the size is unchanged), so `memcpy` then copies zeros onto themselves. */
  function SelfAssignZeroEnd(s: Z.ZeroEnd): (r: Z.ZeroEnd)
    requires Z.Valid(s)
    ensures Z.Valid(r) && Z.Length(r) == Z.Length(s)
    ensures forall i :: 0 <= i < |r.buf| ==> r.buf[i] == Nul
  {
    var n := Z.Length(s);
    var storage := Zeros(n + 1);
    Z.ZeroEnd(Memcpy(storage, storage, n))
  }

  /** A FixedLen string assigned to itself through the base-class `operator=`, as
      written: the same zero-fill before the copy. */
  function SelfAssignFixedLen(s: F.FixedLen): (r: F.FixedLen)
    ensures F.Length(r) == F.Length(s)
    ensures forall i :: 0 <= i < |r.buf| ==> r.buf[i] == Nul
  {
    var n := F.Length(s);
    var storage := Zeros(n);
    F.FixedLen(Memcpy(storage, storage, n))
  }

  /** Self-assignment as written loses every character that is not NUL. */
  lemma SelfAssignZeroEndLosesChars(s: Z.ZeroEnd, i: nat)
    requires Z.Valid(s) && i < Z.Length(s) && s.buf[i] != Nul
    ensures SelfAssignZeroEnd(s) != s
    ensures Z.At(SelfAssignZeroEnd(s), i) != Z.At(s, i)
  {
  }

  /** The corrected self-assignment (reading the source before the storage is reset,
      which is what `AssignToZeroEnd` does) leaves the string as it was. */
  lemma SelfAssignZeroEndIntended(s: Z.ZeroEnd)
    requires Z.Valid(s)
    ensures AssignToZeroEnd(ZeroEndKey(s)) == s
  {
    assert s.buf == s.buf[..|s.buf| - 1] + [Nul];
  }

  /** Self-assignment as written loses every character that is not NUL. */
  lemma SelfAssignFixedLenLosesChars(s: F.FixedLen, i: nat)
    requires i < F.Length(s) && s.buf[i] != Nul
    ensures SelfAssignFixedLen(s) != s
    ensures F.At(SelfAssignFixedLen(s), i) != F.At(s, i)
  {
  }

  /** The corrected self-assignment leaves the string as it was. */
  lemma SelfAssignFixedLenIntended(s: F.FixedLen)
    ensures AssignToFixedLen(FixedLenKey(s)) == s
  {
  }

  /** A concrete instance: the ZeroEnd string "ab" assigned to itself through the
      base-class `operator=` yields two NULs. */
  lemma SelfAssignExample()
    ensures SelfAssignZeroEnd(Z.Assign(Points("ab\0"))).buf == [Nul, Nul, Nul]
    ensures AssignToZeroEnd(ZeroEndKey(Z.Assign(Points("ab\0")))).buf == "ab\0"
  {
    AbBuffer();
  }

  /** The ZeroEnd string built from the C string "ab". */
  lemma AbBuffer()
    ensures Z.Assign(Points("ab\0")).buf == "ab\0"
  {
    assert GetStrLen("ab\0") == 2;
  }
}
