/** Bytes, fixed-width words and little-endian layout, shared by the models of memory and pages. */
module Words {

  type byte = x: int | 0 <= x < 0x100
  type uint16 = x: int | 0 <= x < 0x1_0000
  type uint32 = x: int | 0 <= x < 0x1_0000_0000
  type uint64 = x: int | 0 <= x < 0x1_0000_0000_0000_0000

  const UINT32_MAX := 0xFFFF_FFFF
  const UINT64_MAX := 0xFFFF_FFFF_FFFF_FFFF

  datatype Option<+T> = None | Some(value: T)

  /** The n low bytes of v, least significant first. */
  function Bytes(n: nat, v: nat): (s: seq<byte>)
    ensures |s| == n
  {
    if n == 0 then [] else [v % 0x100] + Bytes(n - 1, v / 0x100)
  }

  /** The little-endian value of a byte string. */
  function Value(s: seq<byte>): nat {
    if s == [] then 0 else s[0] + 0x100 * Value(s[1..])
  }

  function Pow256(n: nat): nat {
    if n == 0 then 1 else 0x100 * Pow256(n - 1)
  }

  lemma PowWords()
    ensures Pow256(2) == 0x1_0000 && Pow256(4) == 0x1_0000_0000 && Pow256(8) == 0x1_0000_0000_0000_0000
  {
    assert Pow256(2) == 0x100 * (0x100 * Pow256(0));
    assert Pow256(4) == 0x100 * (0x100 * (0x100 * (0x100 * Pow256(0))));
    assert Pow256(8) == 0x100 * (0x100 * (0x100 * (0x100 * Pow256(4))));
  }

  /** Loading what was stored gives the value back. */
  lemma {:induction false} ValueOfBytes(n: nat, v: nat)
    requires v < Pow256(n)
    ensures Value(Bytes(n, v)) == v
  {
    if n != 0 {
      assert v / 0x100 < Pow256(n - 1);
      ValueOfBytes(n - 1, v / 0x100);
      assert Bytes(n, v)[1..] == Bytes(n - 1, v / 0x100);
    }
  }

  /** Storing what was loaded gives the bytes back. */
  lemma {:induction false} BytesOfValue(s: seq<byte>)
    ensures Bytes(|s|, Value(s)) == s && Value(s) < Pow256(|s|)
  {
    if s != [] {
      BytesOfValue(s[1..]);
      assert Value(s) / 0x100 == Value(s[1..]) && Value(s) % 0x100 == s[0];
    }
  }

  predicate AllZero(s: seq<byte>) {
    forall k :: 0 <= k < |s| ==> s[k] == 0
  }

  function Zeros(n: nat): (z: seq<byte>)
    ensures |z| == n && AllZero(z)
  {
    seq(n, i => 0)
  }

  /** A word is zero exactly when all its bytes are. */
  lemma {:induction false} ValueZero(s: seq<byte>)
    ensures Value(s) == 0 <==> AllZero(s)
  {
    if s != [] {
      ValueZero(s[1..]);
      assert AllZero(s) <==> s[0] == 0 && AllZero(s[1..]) by {
        if s[0] == 0 && AllZero(s[1..]) {
          forall k | 0 <= k < |s| ensures s[k] == 0 {
            assert k > 0 ==> s[1..][k - 1] == s[k];
          }
        }
      }
    }
  }

  /** memory with the bytes of s written from address at on. */
  function Blit(memory: seq<byte>, at: nat, s: seq<byte>): (r: seq<byte>)
    requires at + |s| <= |memory|
    ensures |r| == |memory|
  {
    memory[..at] + s + memory[at + |s|..]
  }

  lemma SubSlice<T>(s: seq<T>, a: nat, b: nat, i: nat, j: nat)
    requires a <= b <= |s| && i <= j <= b - a
    ensures s[a..b][i..j] == s[a + i..a + j]
  {
    var inner := s[a..b];
    assert forall k :: 0 <= k < b - a ==> inner[k] == s[a + k];
  }

  /** Where a suffix starts with a, and what follows it. */
  lemma SplitSuffix<T>(s: seq<T>, at: nat, a: seq<T>, b: seq<T>)
    requires at <= |s| && s[at..] == a + b
    ensures at + |a| <= |s| && s[at..at + |a|] == a && s[at + |a|..] == b
  {
    var suffix := s[at..];
    assert |suffix| == |s| - at;
    assert forall k :: 0 <= k < |suffix| ==> suffix[k] == s[at + k];
  }

  /** The two memories agree outside [at, at + len). */
  ghost predicate SameOutside(before: seq<byte>, after: seq<byte>, at: nat, len: nat) {
    && |before| == |after|
    && forall k :: 0 <= k < |before| && !(at <= k < at + len) ==> after[k] == before[k]
  }

  lemma SameOutsideTransitive(a: seq<byte>, b: seq<byte>, c: seq<byte>, at: nat, len: nat)
    requires SameOutside(a, b, at, len) && SameOutside(b, c, at, len)
    ensures SameOutside(a, c, at, len)
  {
  }

  /** Two-, four- and eight-byte words survive a store and a load. */
  lemma WordRoundTrip(v: nat)
    ensures v < 0x1_0000 ==> Value(Bytes(2, v)) == v
    ensures v <= UINT32_MAX ==> Value(Bytes(4, v)) == v
    ensures v <= UINT64_MAX ==> Value(Bytes(8, v)) == v
  {
    PowWords();
    if v < 0x1_0000 {
      ValueOfBytes(2, v);
    }
    if v <= UINT32_MAX {
      ValueOfBytes(4, v);
    }
    if v <= UINT64_MAX {
      ValueOfBytes(8, v);
    }
  }

  /** Loaded words are in range. */
  lemma WordInRange(s: seq<byte>)
    ensures |s| == 2 ==> Value(s) < 0x1_0000
    ensures |s| == 4 ==> Value(s) <= UINT32_MAX
    ensures |s| == 8 ==> Value(s) <= UINT64_MAX
  {
    BytesOfValue(s);
    PowWords();
  }
}
