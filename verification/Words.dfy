/** Machine words, bytes, and little-endian 32-bit access to byte memory. */
module Words {
  type Byte = x: int | 0 <= x < 0x100
  type Word = x: int | 0 <= x < 0x1_0000_0000

  /** The value of the `n` bytes at address `a`, low byte first. */
  function GetLE(s: seq<Byte>, a: nat, n: nat): nat
    requires a + n <= |s|
    decreases n
  {
    if n == 0 then 0 else s[a] as int + 0x100 * GetLE(s, a + 1, n - 1)
  }

  /** The little-endian word stored at address `a`. */
  function Get32(s: seq<Byte>, a: nat): Word
    requires a + 4 <= |s|
  {
    GetBytes(s, a);
    GetLE(s, a, 4)
  }

  lemma GetBytes(s: seq<Byte>, a: nat)
    requires a + 4 <= |s|
    ensures GetLE(s, a, 4) ==
            s[a] as int + 0x100 * (s[a + 1] as int) + 0x1_0000 * (s[a + 2] as int) + 0x100_0000 * (s[a + 3] as int)
  {
    assert GetLE(s, a + 2, 2) == s[a + 2] as int + 0x100 * (s[a + 3] as int);
  }

  /** Memory after the word `v` has been stored at address `a`, low byte first. */
  function Put32(s: seq<Byte>, a: nat, v: Word): (r: seq<Byte>)
    requires a + 4 <= |s|
    ensures |r| == |s|
    ensures Get32(r, a) == v
    ensures forall i :: 0 <= i < |s| && !(a <= i < a + 4) ==> r[i] == s[i]
  {
    LowBytes(v);
    var r := s[a := v % 0x100][a + 1 := v / 0x100 % 0x100][a + 2 := v / 0x1_0000 % 0x100][a + 3 := v / 0x100_0000];
    GetBytes(r, a);
    r
  }

  lemma LowBytes(v: Word)
    ensures v == v % 0x100 + 0x100 * (v / 0x100 % 0x100) + 0x1_0000 * (v / 0x1_0000 % 0x100)
                 + 0x100_0000 * (v / 0x100_0000)
  {
    assert v / 0x100 / 0x100 == v / 0x1_0000;
    assert v / 0x1_0000 / 0x100 == v / 0x100_0000;
  }

  /** Words are stored and loaded low byte first. */
  lemma LowByteFirst(s: seq<Byte>, a: nat, v: Word)
    requires a + 4 <= |s|
    ensures var r := Put32(s, a, v);
      && v == r[a] as int + 0x100 * (r[a + 1] as int) + 0x1_0000 * (r[a + 2] as int) + 0x100_0000 * (r[a + 3] as int)
      && Get32(s, a) ==
         s[a] as int + 0x100 * (s[a + 1] as int) + 0x1_0000 * (s[a + 2] as int) + 0x100_0000 * (s[a + 3] as int)
  {
    GetBytes(s, a);
    GetBytes(Put32(s, a, v), a);
  }

  /** A load depends only on the four bytes it reads. */
  lemma Get32Frame(s: seq<Byte>, t: seq<Byte>, a: nat)
    requires a + 4 <= |s| && a + 4 <= |t|
    requires forall i :: a <= i < a + 4 ==> s[i] == t[i]
    ensures Get32(s, a) == Get32(t, a)
  {
    GetBytes(s, a);
    GetBytes(t, a);
  }

  /** A store is invisible to loads of words it does not overlap. */
  lemma Get32AfterPut32(s: seq<Byte>, a: nat, v: Word, b: nat)
    requires a + 4 <= |s| && b + 4 <= |s|
    requires a + 4 <= b || b + 4 <= a
    ensures Get32(Put32(s, a, v), b) == Get32(s, b)
  {
    Get32Frame(Put32(s, a, v), s, b);
  }

  /** `w & 0xfffff000`. */
  function PageBase(w: Word): (r: Word)
    ensures r % 4096 == 0 && r <= w < r + 4096
  {
    w - w % 4096
  }
}
