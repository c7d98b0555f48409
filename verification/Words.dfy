/** Fixed-width machine words and the sequence helpers shared by every module. */
module Words {

  type byte = bv8

  type pos = n: nat | 0 < n witness 1

  /** The addresses of a 32-bit target are the naturals below this bound. */
  const LIMIT32: nat := 0x1_0000_0000

  datatype Option<+T> = None | Some(value: T)

  /** C's `unsigned int` arithmetic: the result modulo 2^32. */
  function U32(n: nat): (r: nat)
    ensures r < LIMIT32
    ensures n < LIMIT32 ==> r == n
    ensures LIMIT32 <= n < 2 * LIMIT32 ==> r == n - LIMIT32
  {
    n % LIMIT32
  }

  /** A little-endian word of memory and its bytes. */
  function Word(b0: byte, b1: byte, b2: byte, b3: byte): bv32 {
    (b0 as bv32) | ((b1 as bv32) << 8) | ((b2 as bv32) << 16) | ((b3 as bv32) << 24)
  }

  function ByteOf(w: bv32, k: nat): byte
    requires k < 4
  {
    if k == 0 then (w & 0xFF) as byte
    else if k == 1 then ((w >> 8) & 0xFF) as byte
    else if k == 2 then ((w >> 16) & 0xFF) as byte
    else ((w >> 24) & 0xFF) as byte
  }

  lemma BytesOfWord(b0: byte, b1: byte, b2: byte, b3: byte)
    ensures var w := Word(b0, b1, b2, b3);
            ByteOf(w, 0) == b0 && ByteOf(w, 1) == b1 && ByteOf(w, 2) == b2 && ByteOf(w, 3) == b3
  {
  }

  lemma WordOfBytes(w: bv32)
    ensures Word(ByteOf(w, 0), ByteOf(w, 1), ByteOf(w, 2), ByteOf(w, 3)) == w
  {
  }

  /** A word is the sum of its bytes, lowest first. */
  lemma WordIsSum(b0: byte, b1: byte, b2: byte, b3: byte)
    ensures Word(b0, b1, b2, b3)
            == (b0 as bv32) + 0x100 * (b1 as bv32) + 0x1_0000 * (b2 as bv32) + 0x100_0000 * (b3 as bv32)
  {
  }

  /** The bytes of a word are its digits to the base 256. */
  lemma BytesAreDigits(w: bv32)
    ensures ByteOf(w, 0) == (w % 0x100) as byte
    ensures ByteOf(w, 1) == ((w / 0x100) % 0x100) as byte
    ensures ByteOf(w, 2) == ((w / 0x1_0000) % 0x100) as byte
    ensures ByteOf(w, 3) == (w / 0x100_0000) as byte
  {
  }

  function Max(a: nat, b: nat): nat { if a < b then b else a }

  function Min(a: nat, b: nat): nat { if a < b then a else b }

  /** `s` with `data` written over the positions from `at` on. */
  function Splice<T>(s: seq<T>, at: nat, data: seq<T>): (r: seq<T>)
    requires at + |data| <= |s|
    ensures |r| == |s|
    ensures forall k :: 0 <= k < |s| ==> r[k] == if at <= k < at + |data| then data[k - at] else s[k]
  {
    seq(|s|, k requires 0 <= k < |s| => if at <= k < at + |data| then data[k - at] else s[k])
  }

  /** The n elements of `s` from `at` on. */
  function Slice<T>(s: seq<T>, at: nat, n: nat): (r: seq<T>)
    requires at + n <= |s|
    ensures |r| == n
    ensures forall k :: 0 <= k < n ==> r[k] == s[at + k]
  {
    seq(n, k requires 0 <= k < n => s[at + k])
  }

  lemma SliceAll<T>(s: seq<T>)
    ensures Slice(s, 0, |s|) == s
  {
    SameElements(Slice(s, 0, |s|), s);
  }

  /** Extensional equality, for use where the solver does not try it itself. */
  lemma SameElements<T>(s: seq<T>, t: seq<T>)
    requires |s| == |t|
    requires forall k :: 0 <= k < |s| ==> s[k] == t[k]
    ensures s == t
  {
  }

  lemma SpliceAll<T>(s: seq<T>, data: seq<T>)
    requires |s| == |data|
    ensures Splice(s, 0, data) == data
  {
    SameElements(Splice(s, 0, data), data);
  }
}
