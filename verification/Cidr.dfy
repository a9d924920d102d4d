/**
 Address matching. Addresses are byte strings in network order; the code compares them as 32-bit
 words of a little-endian host, with masks brought into network order. What it decides is whether
 the two addresses agree on their first bits.
 */
module Cidr {
  import opened Common
  import Text

  type Bytes = seq<bv8>

  const ALL_ONES: bv32 := 0xFFFF_FFFF

  /** Word `i` as the host sees it: the first byte is the least significant. */
  function HostWord(s: Bytes, i: nat): bv32
    requires 4 * i + 4 <= |s|
  {
    (s[4 * i] as bv32) | ((s[4 * i + 1] as bv32) << 8) | ((s[4 * i + 2] as bv32) << 16) | ((s[4 * i + 3] as bv32) << 24)
  }

  /** The byte swap between host and network order. */
  function Htonl(x: bv32): bv32 {
    ((x & 0xFF) << 24) | ((x & 0xFF00) << 8) | ((x >> 8) & 0xFF00) | (x >> 24)
  }

  /** The word with `k` leading ones. */
  function LeadingOnes(k: bv32): bv32
    requires k <= 32
  {
    ALL_ONES << (32 - k)
  }

  /** Two words agree where the mask has ones. */
  predicate MaskedEqual(x: bv32, y: bv32, mask: bv32) {
    (x ^ y) & mask == 0
  }

  predicate CidrMatch(addr: Bytes, net: Bytes, bits: bv8)
    requires |addr| == 4 && |net| == 4 && bits <= 32
  {
    bits == 0 || MaskedEqual(HostWord(addr, 0), HostWord(net, 0), Htonl(LeadingOnes(bits as bv32)))
  }

  /** Only as many words are read as the bits take up, so both addresses may be shorter for few bits. */
  predicate Cidr6Match(addr: Bytes, net: Bytes, bits: bv8)
    requires |addr| == |net| && (|addr| == 16 || |addr| == 4) && bits <= (if |addr| == 16 then 128 else 32)
  {
    var whole := (bits >> 5) as int;
    var incomplete := (bits & 0x1F) as bv32;
    WholeWords(bits);
    && (whole != 0 ==> addr[..4 * whole] == net[..4 * whole])
    && (incomplete != 0 ==> MaskedEqual(HostWord(addr, whole), HostWord(net, whole), Htonl(LeadingOnes(incomplete))))
  }

  lemma WholeWords(bits: bv8)
    requires bits <= 128
    ensures 0 <= (bits >> 5) as int <= 4
    ensures (bits & 0x1F) != 0 ==> (bits >> 5) as int <= 3
    ensures bits <= 32 ==> (bits >> 5) as int <= 1 && ((bits & 0x1F) != 0 ==> (bits >> 5) as int == 0)
    ensures (bits & 0x1F) as bv32 < 32
  {
    assert bits >> 5 <= 4;
    assert bits & 0x1F != 0 ==> bits >> 5 <= 3;
    assert bits <= 32 ==> bits >> 5 <= 1 && (bits & 0x1F != 0 ==> bits >> 5 == 0);
  }

  // ---------- Addresses as bit strings ----------

  /** Word `i` in network order: the first byte is the most significant. */
  function NetWord(s: Bytes, i: nat): bv32
    requires 4 * i + 4 <= |s|
  {
    Join4(s[4 * i], s[4 * i + 1], s[4 * i + 2], s[4 * i + 3])
  }

  /** Bit `k` of a word, the most significant one being bit 0. */
  predicate Bit(w: bv32, k: bv32)
    requires k < 32
  {
    (w >> (31 - k)) & 1 == 1
  }

  /** The first `k` bits of a word. */
  function FirstBits(w: bv32, k: bv32): (r: seq<bool>)
    requires k <= 32
    decreases k
  {
    if k == 0 then [] else FirstBits(w, k - 1) + [Bit(w, k - 1)]
  }

  /** The bits of the words from `i` on. */
  function BitsFrom(s: Bytes, i: nat): seq<bool>
    requires |s| % 4 == 0 && 4 * i <= |s|
    decreases |s| - 4 * i
  {
    if 4 * i == |s| then [] else FirstBits(NetWord(s, i), 32) + BitsFrom(s, i + 1)
  }

  /** All bits of an address, the first one on the wire first. */
  function AddressBits(s: Bytes): seq<bool>
    requires |s| % 4 == 0
  {
    BitsFrom(s, 0)
  }

  lemma {:induction false} FirstBitsLength(w: bv32, k: bv32)
    requires k <= 32
    ensures |FirstBits(w, k)| == k as int
    decreases k
  {
    if k > 0 {
      FirstBitsLength(w, k - 1);
      assert k as int == (k - 1) as int + 1;
    }
  }

  lemma {:induction false} FirstBitsPrefix(w: bv32, j: bv32, k: bv32)
    requires j <= k <= 32
    ensures j as int <= |FirstBits(w, k)| && FirstBits(w, k)[..j as int] == FirstBits(w, j)
    decreases k
  {
    hide Bit;
    if j < k {
      FirstBitsPrefix(w, j, k - 1);
      PrefixOfLonger(FirstBits(w, k - 1), [Bit(w, k - 1)], j as int);
    } else {
      FirstBitsLength(w, k);
      assert FirstBits(w, k)[..k as int] == FirstBits(w, k);
    }
  }

  lemma MaskOneMoreBit(z: bv32, k: bv32)
    requires k < 32
    ensures (z & LeadingOnes(k + 1) == 0) <==> (z & LeadingOnes(k) == 0) && !Bit(z, k)
  {
  }

  lemma BitOfXor(x: bv32, y: bv32, k: bv32)
    requires k < 32
    ensures Bit(x ^ y, k) <==> Bit(x, k) != Bit(y, k)
  {
  }

  /** The mask picks out exactly the first `k` bits. */
  lemma {:induction false} MaskedIffBits(x: bv32, y: bv32, k: bv32)
    requires k <= 32
    ensures MaskedEqual(x, y, LeadingOnes(k)) <==> FirstBits(x, k) == FirstBits(y, k)
    decreases k
  {
    if k > 0 {
      MaskedIffBits(x, y, k - 1);
      MaskOneMoreBit(x ^ y, k - 1);
      BitOfXor(x, y, k - 1);
      var u, v := FirstBits(x, k), FirstBits(y, k);
      assert u == v ==> Front(u) == Front(v) && Last(u) == Last(v);
    } else {
      assert LeadingOnes(0) == 0;
    }
  }

  lemma HostIsSwapped(s: Bytes, i: nat)
    requires 4 * i + 4 <= |s|
    ensures HostWord(s, i) == Htonl(NetWord(s, i))
  {
  }

  lemma SwapOfMask(x: bv32, m: bv32)
    ensures (Htonl(x) & Htonl(m) == 0) <==> (x & m == 0)
  {
  }

  lemma SwapDistributes(x: bv32, y: bv32)
    ensures Htonl(x) ^ Htonl(y) == Htonl(x ^ y)
  {
  }

  lemma SwapOfXor(x: bv32, y: bv32, m: bv32)
    ensures ((Htonl(x) ^ Htonl(y)) & Htonl(m) == 0) <==> ((x ^ y) & m == 0)
  {
    hide Htonl;
    SwapDistributes(x, y);
    SwapOfMask(x ^ y, m);
  }

  lemma SwapThrough(x: bv32, y: bv32, m: bv32)
    ensures MaskedEqual(Htonl(x), Htonl(y), Htonl(m)) <==> MaskedEqual(x, y, m)
  {
    hide Htonl;
    SwapOfXor(x, y, m);
  }

  /** The byte-order conversions cancel out: a masked host word compares the first bits on the wire. */
  lemma WordMatchIffBits(a: Bytes, n: Bytes, i: nat, k: bv32)
    requires 4 * i + 4 <= |a| && 4 * i + 4 <= |n| && k <= 32
    ensures MaskedEqual(HostWord(a, i), HostWord(n, i), Htonl(LeadingOnes(k))) <==>
      FirstBits(NetWord(a, i), k) == FirstBits(NetWord(n, i), k)
  {
    hide *;
    HostIsSwapped(a, i);
    HostIsSwapped(n, i);
    SwapThrough(NetWord(a, i), NetWord(n, i), LeadingOnes(k));
    MaskedIffBits(NetWord(a, i), NetWord(n, i), k);
  }

  function Join4(b0: bv8, b1: bv8, b2: bv8, b3: bv8): bv32 {
    ((b0 as bv32) << 24) | ((b1 as bv32) << 16) | ((b2 as bv32) << 8) | (b3 as bv32)
  }

  lemma Join4Injective(a0: bv8, a1: bv8, a2: bv8, a3: bv8, b0: bv8, b1: bv8, b2: bv8, b3: bv8)
    requires Join4(a0, a1, a2, a3) == Join4(b0, b1, b2, b3)
    ensures a0 == b0 && a1 == b1 && a2 == b2 && a3 == b3
  {
  }

  lemma MaskOfAll(z: bv32)
    ensures LeadingOnes(32) == ALL_ONES && z & ALL_ONES == z
  {
  }

  lemma XorOfSame(x: bv32, y: bv32)
    ensures x ^ y == 0 <==> x == y
  {
  }

  lemma MaskedByAll(x: bv32, y: bv32)
    ensures MaskedEqual(x, y, LeadingOnes(32)) <==> x == y
  {
    hide LeadingOnes;
    MaskOfAll(x ^ y);
    XorOfSame(x, y);
  }

  lemma SameWord(x: bv32, y: bv32)
    ensures FirstBits(x, 32) == FirstBits(y, 32) <==> x == y
  {
    hide *;
    MaskedIffBits(x, y, 32);
    MaskedByAll(x, y);
  }

  lemma SameSlices(a: Bytes, n: Bytes, i: nat)
    requires i + 4 <= |a| && i + 4 <= |n|
    ensures a[i..i + 4] == n[i..i + 4] <==>
      a[i] == n[i] && a[i + 1] == n[i + 1] && a[i + 2] == n[i + 2] && a[i + 3] == n[i + 3]
  {
    var x, y := a[i..i + 4], n[i..i + 4];
    assert x == y <==> x[0] == y[0] && x[1] == y[1] && x[2] == y[2] && x[3] == y[3];
  }

  lemma WordIffBytes(a: Bytes, n: Bytes, i: nat)
    requires 4 * i + 4 <= |a| && 4 * i + 4 <= |n|
    ensures NetWord(a, i) == NetWord(n, i) <==>
      a[4 * i] == n[4 * i] && a[4 * i + 1] == n[4 * i + 1] && a[4 * i + 2] == n[4 * i + 2] && a[4 * i + 3] == n[4 * i + 3]
  {
    hide Join4;
    if NetWord(a, i) == NetWord(n, i) {
      Join4Injective(a[4 * i], a[4 * i + 1], a[4 * i + 2], a[4 * i + 3], n[4 * i], n[4 * i + 1], n[4 * i + 2], n[4 * i + 3]);
    }
  }

  /** All 32 bits of a word agree exactly when its four bytes do. */
  lemma WholeWordIffBytes(a: Bytes, n: Bytes, i: nat)
    requires 4 * i + 4 <= |a| && 4 * i + 4 <= |n|
    ensures FirstBits(NetWord(a, i), 32) == FirstBits(NetWord(n, i), 32) <==> a[4 * i..4 * i + 4] == n[4 * i..4 * i + 4]
  {
    hide *;
    SameWord(NetWord(a, i), NetWord(n, i));
    SameSlices(a, n, 4 * i);
    WordIffBytes(a, n, i);
  }

  lemma NextWordFits(len: nat, i: nat)
    requires len % 4 == 0 && 4 * i < len
    ensures 4 * (i + 1) <= len
  {
  }

  lemma WordLength(w: bv32)
    ensures |FirstBits(w, 32)| == 32
  {
    FirstBitsLength(w, 32);
  }

  lemma {:induction false} BitsFromLength(s: Bytes, i: nat)
    requires |s| % 4 == 0 && 4 * i <= |s|
    ensures |BitsFrom(s, i)| == 8 * (|s| - 4 * i)
    decreases |s| - 4 * i
  {
    if 4 * i < |s| {
      hide FirstBits, NetWord;
      NextWordFits(|s|, i);
      WordLength(NetWord(s, i));
      BitsFromLength(s, i + 1);
    }
  }

  lemma BitsFromStep(s: Bytes, i: nat)
    requires |s| % 4 == 0 && 4 * i < |s|
    ensures BitsFrom(s, i) == FirstBits(NetWord(s, i), 32) + BitsFrom(s, i + 1)
  {
    hide FirstBits, NetWord;
  }

  /** Comparing `whole` words by their bytes from word `i` on leaves a comparison of the bits that follow. */
  lemma {:induction false} WholeWordsIffPrefix(a: Bytes, n: Bytes, i: nat, whole: nat, r: nat, restMatches: bool)
    requires |a| == |n| && |a| % 4 == 0 && 4 * (i + whole) <= |a|
    requires r <= |BitsFrom(a, i + whole)| == |BitsFrom(n, i + whole)|
    requires restMatches <==> BitsFrom(a, i + whole)[..r] == BitsFrom(n, i + whole)[..r]
    ensures 32 * whole + r <= |BitsFrom(a, i)| == |BitsFrom(n, i)|
    ensures a[4 * i..4 * (i + whole)] == n[4 * i..4 * (i + whole)] && restMatches <==>
      BitsFrom(a, i)[..32 * whole + r] == BitsFrom(n, i)[..32 * whole + r]
    decreases whole
  {
    hide *;
    if whole > 0 {
      assert (i + 1) + (whole - 1) == i + whole;
      WholeWordsIffPrefix(a, n, i + 1, whole - 1, r, restMatches);
      BitsFromStep(a, i);
      BitsFromStep(n, i);
      FirstBitsLength(NetWord(a, i), 32);
      FirstBitsLength(NetWord(n, i), 32);
      WholeWordIffBytes(a, n, i);
      PartsStep(a, n, i, whole, restMatches, r,
                FirstBits(NetWord(a, i), 32), BitsFrom(a, i + 1), FirstBits(NetWord(n, i), 32), BitsFrom(n, i + 1));
    }
  }

  lemma PartsStep(a: Bytes, n: Bytes, i: nat, whole: nat, restMatches: bool, rest: nat,
                  x: seq<bool>, x': seq<bool>, y: seq<bool>, y': seq<bool>)
    requires |a| == |n| && whole > 0 && 4 * (i + whole) <= |a|
    requires |x| == |y| == 32 && 32 * (whole - 1) + rest <= |x'| == |y'|
    requires x == y <==> a[4 * i..4 * i + 4] == n[4 * i..4 * i + 4]
    requires a[4 * (i + 1)..4 * (i + whole)] == n[4 * (i + 1)..4 * (i + whole)] && restMatches <==>
      x'[..32 * (whole - 1) + rest] == y'[..32 * (whole - 1) + rest]
    ensures a[4 * i..4 * (i + whole)] == n[4 * i..4 * (i + whole)] && restMatches <==>
      (x + x')[..32 * whole + rest] == (y + y')[..32 * whole + rest]
  {
    SplitSlice(a, n, 4 * i, 4 * i + 4, 4 * (i + whole));
    PrefixOfConcat(x, x', y, y', 32 * whole + rest);
  }

  lemma PrefixInFirstWord(s: Bytes, i: nat, k: bv32)
    requires |s| % 4 == 0 && 4 * i < |s| && k <= 32
    ensures k as int <= |BitsFrom(s, i)| && BitsFrom(s, i)[..k as int] == FirstBits(NetWord(s, i), k)
  {
    FirstBitsOfConcat(NetWord(s, i), k, BitsFrom(s, i + 1));
  }

  lemma FirstBitsOfConcat(w: bv32, k: bv32, more: seq<bool>)
    requires k <= 32
    ensures k as int <= |FirstBits(w, 32) + more| && (FirstBits(w, 32) + more)[..k as int] == FirstBits(w, k)
  {
    hide FirstBits;
    FirstBitsPrefix(w, k, 32);
    PrefixOfLonger(FirstBits(w, 32), more, k as int);
  }

  lemma PrefixOfLonger(s: seq<bool>, more: seq<bool>, j: nat)
    requires j <= |s|
    ensures (s + more)[..j] == s[..j]
  {
  }

  lemma SplitSlice(a: Bytes, n: Bytes, i: nat, j: nat, k: nat)
    requires i <= j <= k <= |a| == |n|
    ensures a[i..k] == n[i..k] <==> a[i..j] == n[i..j] && a[j..k] == n[j..k]
  {
    assert a[i..k] == a[i..j] + a[j..k] && n[i..k] == n[i..j] + n[j..k];
    assert a[i..k][..j - i] == a[i..j] && n[i..k][..j - i] == n[i..j];
    assert a[i..k][j - i..] == a[j..k] && n[i..k][j - i..] == n[j..k];
  }

  lemma PrefixOfConcat(x: seq<bool>, x': seq<bool>, y: seq<bool>, y': seq<bool>, len: nat)
    requires |x| == |y| <= len <= |x| + |x'| && |x'| == |y'|
    ensures (x + x')[..len] == (y + y')[..len] <==> x == y && x'[..len - |x|] == y'[..len - |x|]
  {
    assert (x + x')[..len] == x + x'[..len - |x|];
    assert (y + y')[..len] == y + y'[..len - |x|];
    var u, v := x + x'[..len - |x|], y + y'[..len - |x|];
    assert u == v ==> u[..|x|] == v[..|x|] && u[|x|..] == v[|x|..];
  }

  lemma SplitBits(bits: bv8)
    requires bits <= 128
    ensures bits as int == 32 * ((bits >> 5) as int) + ((bits & 0x1F) as bv32) as int
    ensures 0 <= (bits >> 5) as int <= 4 && ((bits & 0x1F) as bv32) as int < 32
    ensures (bits & 0x1F) != 0 ==> (bits >> 5) as int <= 3
    ensures (bits & 0x1F) as bv32 == 0 <==> (bits & 0x1F) == 0
  {
  }

  // ---------- The property ----------

  /** The two addresses agree on their first `k` bits. */
  predicate PrefixEqual(a: Bytes, n: Bytes, k: nat)
    requires |a| % 4 == 0 && |n| % 4 == 0
  {
    BitsFromLength(a, 0);
    BitsFromLength(n, 0);
    k <= 8 * |a| && k <= 8 * |n| && AddressBits(a)[..k] == AddressBits(n)[..k]
  }

  /** The masked part of the comparison. */
  predicate RestMatches(a: Bytes, n: Bytes, i: nat, rest: bv32)
    requires rest <= 32 && (rest != 0 ==> 4 * i + 4 <= |a| && 4 * i + 4 <= |n|)
  {
    rest == 0 || MaskedEqual(HostWord(a, i), HostWord(n, i), Htonl(LeadingOnes(rest)))
  }

  lemma RestIffPrefix(a: Bytes, n: Bytes, i: nat, rest: bv32, r: nat)
    requires |a| == |n| && |a| % 4 == 0 && rest <= 32 && r == rest as int
    requires 4 * i <= |a| && (rest != 0 ==> 4 * i + 4 <= |a|)
    ensures r <= |BitsFrom(a, i)| == |BitsFrom(n, i)|
    ensures RestMatches(a, n, i, rest) <==> BitsFrom(a, i)[..r] == BitsFrom(n, i)[..r]
  {
    hide BitsFrom, MaskedEqual, HostWord, Htonl, LeadingOnes, NetWord, FirstBits;
    BitsFromLength(a, i);
    BitsFromLength(n, i);
    if rest != 0 {
      WordMatchIffBits(a, n, i, rest);
      PrefixInFirstWord(a, i, rest);
      PrefixInFirstWord(n, i, rest);
    } else {
      assert r == 0;
    }
  }

  lemma CidrMatchIffPrefix(addr: Bytes, net: Bytes, bits: bv8)
    requires |addr| == 4 && |net| == 4 && bits <= 32
    ensures CidrMatch(addr, net, bits) <==> PrefixEqual(addr, net, bits as int)
  {
    hide HostWord, Htonl, LeadingOnes, MaskedEqual, BitsFrom;
    assert (bits as bv32) as int == bits as int;
    RestIffPrefix(addr, net, 0, bits as bv32, bits as int);
  }

  lemma Cidr6MatchIffPrefix(addr: Bytes, net: Bytes, bits: bv8)
    requires |addr| == |net| && (|addr| == 16 || |addr| == 4) && bits <= (if |addr| == 16 then 128 else 32)
    ensures Cidr6Match(addr, net, bits) <==> PrefixEqual(addr, net, bits as int)
  {
    hide HostWord, Htonl, LeadingOnes, MaskedEqual, BitsFrom;
    var whole, rest := (bits >> 5) as int, (bits & 0x1F) as bv32;
    SplitBits(bits);
    WholeWords(bits);
    RestIffPrefix(addr, net, whole, rest, rest as int);
    WholeWordsIffPrefix(addr, net, 0, whole, rest as int, RestMatches(addr, net, whole, rest));
  }

  /** A match at a longer prefix is a match at every shorter one. */
  lemma PrefixShorter(a: Bytes, n: Bytes, j: nat, k: nat)
    requires |a| % 4 == 0 && |n| % 4 == 0 && j <= k && PrefixEqual(a, n, k)
    ensures PrefixEqual(a, n, j)
  {
    BitsFromLength(a, 0);
    BitsFromLength(n, 0);
    var x, y := AddressBits(a), AddressBits(n);
    assert x[..k][..j] == x[..j] && y[..k][..j] == y[..j];
  }

  // ---------- The same as an aligned block of numbers ----------

  /** A bit string as a number, first bit most significant. */
  function Value(s: seq<bool>): nat {
    if s == [] then 0 else 2 * Value(Front(s)) + if Last(s) then 1 else 0
  }

  function Pow2(n: nat): (r: nat)
    ensures r >= 1
  {
    if n == 0 then 1 else 2 * Pow2(n - 1)
  }

  lemma Twice(x: nat, y: nat)
    ensures 2 * (x * y) == x * (2 * y)
  {
  }

  lemma {:induction false} ValueSplit(s: seq<bool>, k: nat)
    requires k <= |s|
    ensures Value(s) == Value(s[..k]) * Pow2(|s| - k) + Value(s[k..])
    ensures Value(s[k..]) < Pow2(|s| - k)
  {
    if k == |s| {
      assert s[..k] == s && s[k..] == [];
    } else {
      ValueSplit(Front(s), k);
      FrontOfSuffix(s, k);
      assert Front(s)[..k] == s[..k];
      var high := Value(s[..k]);
      Twice(high, Pow2(|s| - 1 - k));
      if k == |s| - 1 {
        assert Front(s)[k..] == [] == Front(s[k..]);
      }
    }
  }

  lemma {:induction false} ValueInjective(s: seq<bool>, t: seq<bool>)
    requires |s| == |t| && Value(s) == Value(t)
    ensures s == t
  {
    if s != [] {
      ValueInjective(Front(s), Front(t));
      assert s == Front(s) + [Last(s)] && t == Front(t) + [Last(t)];
    }
  }

  /** The numbers that share the first `k` bits with `n`: 2 to the power of |n| - k of them, starting at a multiple. */
  predicate InBlock(x: nat, n: seq<bool>, k: nat)
    requires k <= |n|
  {
    var size := Pow2(|n| - k);
    Value(n[..k]) * size <= x < (Value(n[..k]) + 1) * size
  }

  lemma PrefixIffBlock(a: seq<bool>, n: seq<bool>, k: nat)
    requires |a| == |n| && k <= |n|
    ensures a[..k] == n[..k] <==> InBlock(Value(a), n, k)
  {
    ValueSplit(a, k);
    var size, x, y := Pow2(|n| - k), Value(a[..k]), Value(n[..k]);
    SameQuotient(Value(a), x, Value(a[k..]), y, size);
    if x == y {
      ValueInjective(a[..k], n[..k]);
    }
  }

  lemma SameQuotient(v: nat, x: nat, low: nat, y: nat, size: nat)
    requires v == x * size + low && low < size
    ensures y * size <= v < (y + 1) * size <==> x == y
  {
    assert (y + 1) * size == y * size + size;
    if x < y {
      assert (x + 1) * size <= y * size;
      assert (x + 1) * size == x * size + size;
    } else if x > y {
      assert (y + 1) * size <= x * size;
    }
  }

  /** Matching an address against a network is lying in the network's aligned block of addresses. */
  lemma Cidr6MatchIffBlock(addr: Bytes, net: Bytes, bits: bv8)
    requires |addr| == 16 && |net| == 16 && bits <= 128
    ensures |AddressBits(net)| == 128 && bits as int <= 128
    ensures Cidr6Match(addr, net, bits) <==> InBlock(Value(AddressBits(addr)), AddressBits(net), bits as int)
  {
    hide *;
    assert bits as int <= 128;
    AddressLength(addr);
    AddressLength(net);
    Cidr6MatchIffPrefix(addr, net, bits);
    PrefixEqualIffBlock(addr, net, bits as int);
  }

  lemma CidrMatchIffBlock(addr: Bytes, net: Bytes, bits: bv8)
    requires |addr| == 4 && |net| == 4 && bits <= 32
    ensures |AddressBits(net)| == 32 && bits as int <= 32
    ensures CidrMatch(addr, net, bits) <==> InBlock(Value(AddressBits(addr)), AddressBits(net), bits as int)
  {
    hide *;
    assert bits as int <= 32;
    AddressLength(addr);
    AddressLength(net);
    CidrMatchIffPrefix(addr, net, bits);
    PrefixEqualIffBlock(addr, net, bits as int);
  }

  lemma AddressLength(s: Bytes)
    requires |s| % 4 == 0
    ensures |AddressBits(s)| == 8 * |s|
  {
    BitsFromLength(s, 0);
  }

  lemma PrefixEqualIffBlock(addr: Bytes, net: Bytes, k: nat)
    requires |addr| == |net| && |net| % 4 == 0 && k <= 8 * |net|
    ensures |AddressBits(net)| == 8 * |net|
    ensures PrefixEqual(addr, net, k) <==> InBlock(Value(AddressBits(addr)), AddressBits(net), k)
  {
    AddressLength(addr);
    AddressLength(net);
    PrefixIffBlock(AddressBits(addr), AddressBits(net), k);
  }

  // ---------- Ranges written as address/length ----------

  datatype IP = V4(bytes: Bytes) | V6(bytes: Bytes)

  predicate ValidIP(ip: IP) {
    |ip.bytes| == if ip.V4? then 4 else 16
  }

  datatype Answer = Raises | Says(yes: bool)

  /** Reading an address and a number, as the network library and the C library do. */
  datatype Reader = Reader(ip: string -> Option<IP>, number: string -> Option<bv64>)

  ghost predicate ValidReader(read: Reader) {
    forall s: string :: read.ip(s).Some? ==> ValidIP(read.ip(s).value)
  }

  /** Trimmed tokens; a last token that is not empty but blank is dropped. */
  function RangeTokens(range: string): seq<string> {
    var tokens := Text.Tokens(range, '/');
    var trimmed := seq(|tokens|, i requires 0 <= i < |tokens| => Text.Trim(tokens[i]));
    if tokens != [] && Last(tokens) != "" && Last(trimmed) == "" then Front(trimmed) else trimmed
  }

  /** Only the low byte of the mask length reaches the match. */
  function MaskByte(l: bv64): bv8 {
    (l & 0xFF) as bv8
  }

  /** The range is an address and a mask length that can be read. */
  predicate IsCidr(read: Reader, range: string) {
    var tokens := RangeTokens(range);
    |tokens| == 2 && read.ip(tokens[0]).Some? && read.number(tokens[1]).Some?
  }

  /** How many leading bytes two addresses have in common places. */
  function Shorter(a: IP, b: IP): (k: nat)
    requires ValidIP(a) && ValidIP(b)
    ensures k <= |a.bytes| && k <= |b.bytes| && k % 4 == 0
  {
    if |a.bytes| <= |b.bytes| then |a.bytes| else |b.bytes|
  }

  /** What the comparison takes for granted: the mask does not reach beyond the shorter of the two addresses. */
  predicate Comparable(read: Reader, ip: IP, range: string) {
    IsCidr(read, range) ==>
      var rangeIP := read.ip(RangeTokens(range)[0]).value;
      var mask := MaskByte(read.number(RangeTokens(range)[1]).value);
      mask <= if rangeIP.V6? && ip.V6? then 128 else 32
  }

  /** Addresses of different families are compared byte by byte from their first bytes on. */
  function CidrIPinRange(read: Reader, ip: IP, range: string): Answer
    requires ValidIP(ip) && ValidReader(read) && Comparable(read, ip, range)
  {
    var tokens := RangeTokens(range);
    if tokens == [] then Raises
    else if read.ip(tokens[0]).None? || |tokens| != 2 || read.number(tokens[1]).None? then Says(false)
    else
      var rangeIP, mask := read.ip(tokens[0]).value, MaskByte(read.number(tokens[1]).value);
      var k := Shorter(rangeIP, ip);
      if rangeIP.V4? then Says(CidrMatch(rangeIP.bytes[..k], ip.bytes[..k], mask))
      else Says(Cidr6Match(rangeIP.bytes[..k], ip.bytes[..k], mask))
  }

  lemma {:induction false} TrimLeftKeeps(s: string, c: char)
    requires c in s && !Text.IsSpace(c)
    ensures c in Text.TrimLeft(s)
  {
    if Text.TrimLeft(s) != s {
      assert s == [s[0]] + s[1..];
      TrimLeftKeeps(s[1..], c);
    }
  }

  lemma {:induction false} TrimRightKeeps(s: string, c: char)
    requires c in s && !Text.IsSpace(c)
    ensures c in Text.TrimRight(s)
  {
    if Text.TrimRight(s) != s {
      assert s == Front(s) + [Last(s)];
      TrimRightKeeps(Front(s), c);
    }
  }

  /** A range has no tokens exactly when it is blank. */
  lemma NoTokensIffBlank(range: string)
    ensures RangeTokens(range) == [] <==> Text.Trim(range) == ""
  {
    Text.JoinOfPieces(range, '/');
    var parts := Text.Pieces(range, '/');
    if '/' in range {
      TrimLeftKeeps(range, '/');
      TrimRightKeeps(Text.TrimLeft(range), '/');
      assert |parts| > 1;
    } else {
      Text.PiecesOfJoin([range], '/');
      assert Text.Join([range], '/') == range;
    }
    hide Text.TrimLeft, Text.TrimRight, Text.Join, Text.Pieces;
  }

  /**
   An address is in a range exactly when the range can be read and its first bits, as many as the low
   byte of the mask length says, are those of the address.
   */
  lemma InRangeIffPrefix(read: Reader, ip: IP, range: string)
    requires ValidIP(ip) && ValidReader(read) && Comparable(read, ip, range)
    ensures CidrIPinRange(read, ip, range) == Raises <==> Text.Trim(range) == ""
    ensures CidrIPinRange(read, ip, range) == Says(true) <==>
      && IsCidr(read, range)
      && var rangeIP := read.ip(RangeTokens(range)[0]).value;
        var k := Shorter(rangeIP, ip);
        PrefixEqual(rangeIP.bytes[..k], ip.bytes[..k], MaskByte(read.number(RangeTokens(range)[1]).value) as int)
  {
    hide CidrMatch, Cidr6Match, PrefixEqual, MaskByte, RangeTokens, Text.Trim;
    NoTokensIffBlank(range);
    if IsCidr(read, range) {
      var rangeIP, mask := read.ip(RangeTokens(range)[0]).value, MaskByte(read.number(RangeTokens(range)[1]).value);
      var k := Shorter(rangeIP, ip);
      if rangeIP.V4? {
        CidrMatchIffPrefix(rangeIP.bytes[..k], ip.bytes[..k], mask);
      } else {
        Cidr6MatchIffPrefix(rangeIP.bytes[..k], ip.bytes[..k], mask);
      }
    }
  }

  /** The text "address/length", with blanks around either part, is read as that address and that length. */
  lemma TokensOfRange(a: string, t: string)
    requires '/' !in a && '/' !in t && Text.Trim(t) != ""
    ensures RangeTokens(a + "/" + t) == [Text.Trim(a), Text.Trim(t)]
  {
    Text.PiecesOfJoin([a, t], '/');
    assert Text.Join([a, t], '/') == a + ['/'] + t;
    assert Text.Tokens(a + "/" + t, '/') == [a, t];
    hide Text.Pieces, Text.Join, Text.Trim, Text.Tokens;
  }

  lemma LowByte(l: bv64, b: bv8)
    requires l & 0xFF == b as bv64
    ensures MaskByte(l) == b
  {
  }

  /**
   What a range text means. An address is in the range "net/l", with blanks around either part, exactly
   when its first bits are those of the network, as many as the low byte `b` of the length says.
   */
  lemma RangeTextIff(read: Reader, ip: IP, a: string, t: string, net: IP, l: bv64, b: bv8)
    requires ValidIP(ip) && ValidReader(read) && '/' !in a && '/' !in t && Text.Trim(t) != ""
    requires read.ip(Text.Trim(a)) == Some(net) && read.number(Text.Trim(t)) == Some(l) && l & 0xFF == b as bv64
    requires ValidIP(net) && b <= (if net.V6? && ip.V6? then 128 else 32)
    ensures Comparable(read, ip, a + "/" + t)
    ensures CidrIPinRange(read, ip, a + "/" + t) == Says(true) <==>
      PrefixEqual(net.bytes[..Shorter(net, ip)], ip.bytes[..Shorter(net, ip)], b as int)
    ensures CidrIPinRange(read, ip, a + "/" + t) != Raises
  {
    hide MaskByte, RangeTokens, PrefixEqual, CidrIPinRange, Text.Trim;
    TokensOfRange(a, t);
    LowByte(l, b);
    InRangeIffPrefix(read, ip, a + "/" + t);
    NoTokensIffBlank(a + "/" + t);
  }

  /** A text of one part, or of three with the last not blank, is no range, and neither is one that cannot be read. */
  lemma OtherTextsSayNo(read: Reader, ip: IP, a: string, t: string, u: string)
    requires ValidIP(ip) && ValidReader(read)
    requires '/' !in a && '/' !in t && '/' !in u && Text.Trim(a) != "" && Text.Trim(t) != "" && Text.Trim(u) != ""
    ensures Comparable(read, ip, a) && CidrIPinRange(read, ip, a) == Says(false)
    ensures Comparable(read, ip, a + "/" + t + "/" + u) && CidrIPinRange(read, ip, a + "/" + t + "/" + u) == Says(false)
    ensures read.ip(Text.Trim(a)).None? || read.number(Text.Trim(t)).None? ==>
      Comparable(read, ip, a + "/" + t) && CidrIPinRange(read, ip, a + "/" + t) == Says(false)
  {
    TokensOfRange(a, t);
    TokensOfOne(a);
    TokensOfThree(a, t, u);
    hide RangeTokens, Text.Trim, CidrMatch, Cidr6Match, MaskByte;
  }

  lemma TokensOfOne(a: string)
    requires '/' !in a && Text.Trim(a) != ""
    ensures RangeTokens(a) == [Text.Trim(a)]
  {
    Text.PiecesOfJoin([a], '/');
    assert Text.Join([a], '/') == a;
    assert a != "" by {
      assert Text.Trim("") == "";
    }
    assert Text.Tokens(a, '/') == [a];
    hide Text.Pieces, Text.Join, Text.Trim, Text.Tokens;
  }

  lemma TokensOfThree(a: string, t: string, u: string)
    requires '/' !in a && '/' !in t && '/' !in u && Text.Trim(u) != ""
    ensures RangeTokens(a + "/" + t + "/" + u) == [Text.Trim(a), Text.Trim(t), Text.Trim(u)]
  {
    assert [a, t, u][1..] == [t, u] && [t, u][1..] == [u];
    assert Text.Join([u], '/') == u;
    assert Text.Join([t, u], '/') == t + ['/'] + u;
    assert Text.Join([a, t, u], '/') == a + ['/'] + Text.Join([t, u], '/');
    assert a + ['/'] + (t + ['/'] + u) == a + "/" + t + "/" + u;
    Text.PiecesOfJoin([a, t, u], '/');
    assert Text.Tokens(a + "/" + t + "/" + u, '/') == [a, t, u];
    hide Text.Pieces, Text.Join, Text.Trim, Text.Tokens;
  }

  /** A mask length of 256, or of any multiple of it, lets every address in. */
  lemma MultipleOf256LetsAllIn(read: Reader, ip: IP, range: string)
    requires ValidIP(ip) && ValidReader(read) && IsCidr(read, range)
    requires read.number(RangeTokens(range)[1]).value & 0xFF == 0
    ensures CidrIPinRange(read, ip, range) == Says(true)
  {
    var rangeIP := read.ip(RangeTokens(range)[0]).value;
    var k := Shorter(rangeIP, ip);
    ZeroMask(read.number(RangeTokens(range)[1]).value);
    hide MaskByte, CidrIPinRange, RangeTokens;
    assert PrefixEqual(rangeIP.bytes[..k], ip.bytes[..k], 0);
    hide PrefixEqual;
    InRangeIffPrefix(read, ip, range);
  }

  lemma ZeroMask(l: bv64)
    requires l & 0xFF == 0
    ensures MaskByte(l) == 0 && MaskByte(l) as int == 0
    ensures MaskByte(256) == 0
  {
  }
}
