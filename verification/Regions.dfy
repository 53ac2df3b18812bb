/** Parts of a flat memory: loads, stores and what a store leaves alone. */
module Regions {
  import opened Words

  function Load64(m: seq<byte>, at: nat): uint64
    requires at + 8 <= |m|
  {
    WordInRange(m[at..at + 8]);
    Value(m[at..at + 8])
  }

  function Load32(m: seq<byte>, at: nat): uint32
    requires at + 4 <= |m|
  {
    WordInRange(m[at..at + 4]);
    Value(m[at..at + 4])
  }

  function Load16(m: seq<byte>, at: nat): uint16
    requires at + 2 <= |m|
  {
    WordInRange(m[at..at + 2]);
    Value(m[at..at + 2])
  }

  function Region(m: seq<byte>, at: nat, len: nat): (r: seq<byte>)
    requires at + len <= |m|
    ensures |r| == len
  {
    m[at..at + len]
  }

  lemma BlitRegion(m: seq<byte>, at: nat, s: seq<byte>)
    requires at + |s| <= |m|
    ensures Region(Blit(m, at, s), at, |s|) == s
    ensures SameOutside(m, Blit(m, at, s), at, |s|)
  {
  }

  /** A region that a write does not touch keeps its bytes. */
  lemma KeepRegion(m: seq<byte>, m': seq<byte>, at: nat, len: nat, from: nat, n: nat)
    requires SameOutside(m, m', at, len) && from + n <= |m|
    requires from + n <= at || at + len <= from
    ensures Region(m', from, n) == Region(m, from, n)
  {
  }

  /** A memory is determined by what was written and what was kept. */
  lemma BlitUnique(m: seq<byte>, m': seq<byte>, at: nat, s: seq<byte>)
    requires at + |s| <= |m| && SameOutside(m, m', at, |s|) && Region(m', at, |s|) == s
    ensures m' == Blit(m, at, s)
  {
    forall k | 0 <= k < |m|
      ensures m'[k] == Blit(m, at, s)[k]
    {
      assert at <= k < at + |s| ==> m'[k] == Region(m', at, |s|)[k - at];
    }
  }

  /** A write inside a region is a write to the region's bytes. */
  lemma BlitWithin(m: seq<byte>, start: nat, len: nat, offset: nat, s: seq<byte>)
    requires start + len <= |m| && offset + |s| <= len
    ensures Region(Blit(m, start + offset, s), start, len) == Blit(Region(m, start, len), offset, s)
    ensures SameOutside(m, Blit(m, start + offset, s), start, len)
  {
    var whole, part := Blit(m, start + offset, s), Blit(Region(m, start, len), offset, s);
    forall k | 0 <= k < len
      ensures Region(whole, start, len)[k] == part[k]
    {
      assert Region(whole, start, len)[k] == whole[start + k];
    }
  }

  /** The second of two writes to the same place wins. */
  lemma BlitTwice(m: seq<byte>, at: nat, s: seq<byte>, t: seq<byte>)
    requires |s| == |t| && at + |s| <= |m|
    ensures Blit(Blit(m, at, s), at, t) == Blit(m, at, t)
  {
  }

  lemma LoadStored(m: seq<byte>, at: nat, v: uint64)
    requires at + 8 <= |m|
    ensures Load64(Blit(m, at, Bytes(8, v)), at) == v
  {
    BlitRegion(m, at, Bytes(8, v));
    WordRoundTrip(v);
  }

  lemma KeepWord(m: seq<byte>, m': seq<byte>, at: nat, len: nat, word: nat)
    requires SameOutside(m, m', at, len) && word + 8 <= |m|
    requires word + 8 <= at || at + len <= word
    ensures Load64(m', word) == Load64(m, word)
  {
    KeepRegion(m, m', at, len, word, 8);
  }

  lemma Widen(m: seq<byte>, m': seq<byte>, at: nat, len: nat, from: nat, n: nat)
    requires SameOutside(m, m', at, len) && from <= at && at + len <= from + n
    ensures SameOutside(m, m', from, n)
  {
  }

  method StoreBytes(mem: array<byte>, at: nat, s: seq<byte>)
    requires at + |s| <= mem.Length
    modifies mem
    ensures mem[..] == Blit(old(mem[..]), at, s)
  {
    forall k | 0 <= k < |s| {
      mem[at + k] := s[k];
    }
  }

  /** memcpy between disjoint parts of memory. */
  method CopyWithin(mem: array<byte>, from: nat, to: nat, len: nat)
    requires from + len <= mem.Length && to + len <= mem.Length
    requires from + len <= to || to + len <= from || len == 0
    modifies mem
    ensures mem[..] == Blit(old(mem[..]), to, Region(old(mem[..]), from, len))
  {
    forall k | 0 <= k < len {
      mem[to + k] := mem[from + k];
    }
  }
}
