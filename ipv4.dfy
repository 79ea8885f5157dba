/**
 * IPv4 addresses as unsigned 32-bit words, the representation the server's
 * address pool works on (`u32` obtained from `Ipv4Addr`), the word operations
 * it uses, and the four octets of an address in network byte order (most
 * significant octet first).
 */
module Ipv4 {

  /** An octet (`u8`). */
  type Byte = x: int | 0 <= x < 0x100

  /** An unsigned 32-bit word (`u32`): an IPv4 address or netmask. */
  type U32 = x: int | 0 <= x < 0x1_0000_0000

  const U32_MAX: U32 := 0xFFFF_FFFF

  function Pow2(k: nat): (p: nat)
    ensures p >= 1
  {
    if k == 0 then 1 else 2 * Pow2(k - 1)
  }

  lemma {:induction false} Pow2Add(a: nat, b: nat)
    ensures Pow2(a + b) == Pow2(a) * Pow2(b)
    decreases a
  {
    if a > 0 {
      Pow2Add(a - 1, b);
    }
  }

  lemma Pow2Of32()
    ensures Pow2(32) == 0x1_0000_0000
  {
    assert Pow2(2) == 4;
    assert Pow2(4) == 16;
    Pow2Add(4, 4);
    Pow2Add(8, 8);
    Pow2Add(16, 16);
  }

  /** Bitwise AND of the low `w` bits of two naturals, least significant bit first. */
  function BitAnd(a: nat, b: nat, w: nat): (r: nat)
    ensures r <= a && r <= b
    decreases w
  {
    if w == 0 then 0
    else 2 * BitAnd(a / 2, b / 2, w - 1) + (if a % 2 == 1 && b % 2 == 1 then 1 else 0)
  }

  /** Bitwise OR of the low `w` bits of two naturals, least significant bit first. */
  function BitOr(a: nat, b: nat, w: nat): (r: nat)
    decreases w
  {
    if w == 0 then 0
    else 2 * BitOr(a / 2, b / 2, w - 1) + (if a % 2 == 1 || b % 2 == 1 then 1 else 0)
  }

  lemma {:induction false} BitOrBounds(a: nat, b: nat, w: nat)
    requires a < Pow2(w) && b < Pow2(w)
    ensures a <= BitOr(a, b, w) < Pow2(w) && b <= BitOr(a, b, w)
    decreases w
  {
    if w > 0 {
      BitOrBounds(a / 2, b / 2, w - 1);
    }
  }

  /** `a & b` on `u32`: never larger than either operand. */
  function And(a: U32, b: U32): (r: U32)
    ensures r <= a && r <= b
  {
    BitAnd(a, b, 32)
  }

  /** `a | b` on `u32`: never smaller than either operand. */
  function Or(a: U32, b: U32): (r: U32)
    ensures a <= r && b <= r
  {
    Pow2Of32();
    BitOrBounds(a, b, 32);
    BitOr(a, b, 32)
  }

  /** `a` and `m - a`, for `m` the word of `w` one bits, share no bit and together cover all `w` bits. */
  lemma {:induction false} BitComplement(a: nat, m: nat, w: nat)
    requires a <= m && m + 1 == Pow2(w)
    ensures BitAnd(a, m - a, w) == 0
    ensures BitOr(a, m - a, w) == m
    decreases w
  {
    if w > 0 {
      assert (m - a) / 2 == m / 2 - a / 2;
      assert (m - a) % 2 == 1 - a % 2;
      BitComplement(a / 2, m / 2, w - 1);
    }
  }

  /** `!a` on `u32`, which is `u32::MAX - a`; `NotFlipsEveryBit` shows it flips every bit. */
  function Not(a: U32): (r: U32)
    ensures a + r == U32_MAX
  {
    U32_MAX - a
  }

  /**
   * `!a` flips every bit of `a`: over the 32 bits that `And` and `Or` work
   * on (`w`, with `m` all ones), `Not(a)` shares no bit with `a`, and the
   * two together cover all of them.
   */
  lemma NotFlipsEveryBit(a: nat, m: nat, w: nat)
    requires w == 32 && m == U32_MAX && a <= m
    ensures m - a == Not(a)
    ensures BitAnd(a, m - a, w) == 0 && BitOr(a, m - a, w) == m
  {
    Pow2Of32();
    BitComplement(a, m, w);
  }

  /** The low `h` bits of `a` as a number (`a` modulo 2^h), least significant bit first. */
  function LowBits(a: nat, h: nat): (r: nat)
    ensures r < Pow2(h) && r <= a
    decreases h
  {
    if h == 0 then 0 else 2 * LowBits(a / 2, h - 1) + a % 2
  }

  lemma {:induction false} Pow2Monotone(h: nat, w: nat)
    requires h <= w
    ensures Pow2(h) <= Pow2(w)
    decreases w
  {
    if h < w {
      Pow2Monotone(h, w - 1);
    }
  }

  /** The contiguous netmask with `32 - h` leading one bits and `h` host bits (a /(32-h) prefix). */
  function PrefixMask(h: nat): (m: U32)
    requires h <= 32
    ensures Not(m) == Pow2(h) - 1
  {
    Pow2Of32();
    Pow2Monotone(h, 32);
    0x1_0000_0000 - Pow2(h)
  }

  /** AND with all `w` bits set leaves a word of `w` bits alone. */
  lemma {:induction false} BitAndOnes(a: nat, m: nat, w: nat)
    requires a < Pow2(w) && m + 1 == Pow2(w)
    ensures BitAnd(a, m, w) == a
    decreases w
  {
    if w > 0 {
      BitAndOnes(a / 2, m / 2, w - 1);
    }
  }

  /** AND with a mask of ones above the low `h` bits clears exactly those low bits. */
  lemma {:induction false} BitAndHighOnes(a: nat, m: nat, h: nat, w: nat)
    requires h <= w && a < Pow2(w) && m + Pow2(h) == Pow2(w)
    ensures BitAnd(a, m, w) == a - LowBits(a, h)
    decreases h
  {
    if h == 0 {
      BitAndOnes(a, m, w);
    } else {
      BitAndHighOnes(a / 2, m / 2, h - 1, w - 1);
    }
  }

  /** OR with zero leaves a word of `w` bits alone. */
  lemma {:induction false} BitOrZero(n: nat, w: nat)
    requires n < Pow2(w)
    ensures BitOr(n, 0, w) == n
    decreases w
  {
    if w > 0 {
      BitOrZero(n / 2, w - 1);
    }
  }

  /** OR of a word whose low `h` bits are clear with a number below 2^h is their sum. */
  lemma {:induction false} BitOrDisjoint(n: nat, i: nat, h: nat, w: nat)
    requires h <= w && n < Pow2(w) && LowBits(n, h) == 0 && i < Pow2(h)
    ensures BitOr(n, i, w) == n + i
    decreases h
  {
    if h == 0 {
      BitOrZero(n, w);
    } else {
      BitOrDisjoint(n / 2, i / 2, h - 1, w - 1);
    }
  }

  /** Clearing the low `h` bits leaves them clear. */
  lemma {:induction false} LowBitsCleared(a: nat, h: nat)
    ensures LowBits(a - LowBits(a, h), h) == 0
    decreases h
  {
    if h > 0 {
      LowBitsCleared(a / 2, h - 1);
      assert (a - LowBits(a, h)) / 2 == a / 2 - LowBits(a / 2, h - 1);
    }
  }

  /** Adding a number below 2^h to a word whose low `h` bits are clear puts it in those bits. */
  lemma {:induction false} LowBitsOfSum(n: nat, i: nat, h: nat)
    requires LowBits(n, h) == 0 && i < Pow2(h)
    ensures LowBits(n + i, h) == i
    decreases h
  {
    if h > 0 {
      LowBitsOfSum(n / 2, i / 2, h - 1);
      assert (n + i) / 2 == n / 2 + i / 2;
    }
  }

  /** An address `a` at most 2^h - 1 above a word whose low `h` bits are clear has the difference as its low bits. */
  lemma LowBitsOfOffset(n: nat, a: nat, h: nat)
    requires LowBits(n, h) == 0
    requires n <= a <= n + Pow2(h) - 1
    ensures LowBits(a, h) == a - n
  {
    LowBitsOfSum(n, a - n, h);
    assert n + (a - n) == a;
  }

  /** Under a prefix mask, `a & mask` is `a` with its host bits cleared. */
  lemma AndPrefixMask(a: U32, h: nat)
    requires h <= 32
    ensures And(a, PrefixMask(h)) == a - LowBits(a, h)
  {
    var m := PrefixMask(h);
    Pow2Of32();
    assert m + Pow2(h) == Pow2(32);
    BitAndHighOnes(a, m, h, 32);
  }

  /** Under a prefix mask, `n | i` with the host bits of `n` clear and `i` a host offset is `n + i`. */
  lemma OrHostOffset(n: U32, i: U32, h: nat)
    requires h <= 32 && LowBits(n, h) == 0 && i < Pow2(h)
    ensures Or(n, i) == n + i
  {
    Pow2Of32();
    BitOrDisjoint(n, i, h, 32);
  }

  /** The address with the given four octets (`Ipv4Addr::new`, then `u32::from`). */
  function FromOctets(b0: Byte, b1: Byte, b2: Byte, b3: Byte): (a: U32)
    ensures a == b0 * 0x100_0000 + b1 * 0x1_0000 + b2 * 0x100 + b3
    ensures a / 0x100_0000 == b0 && a % 0x100 == b3
  {
    ((b0 * 0x100 + b1) * 0x100 + b2) * 0x100 + b3
  }

  /** The octets of an address, most significant first (`Ipv4Addr::octets`); they rebuild it. */
  function Octets(a: U32): (o: seq<Byte>)
    ensures |o| == 4
    ensures FromOctets(o[0], o[1], o[2], o[3]) == a
  {
    var t1 := a / 0x100;
    var t2 := t1 / 0x100;
    [t2 / 0x100, t2 % 0x100, t1 % 0x100, a % 0x100]
  }

  /** Building an address from octets and taking it apart again gives the octets back. */
  lemma OctetsOfFromOctets(b0: Byte, b1: Byte, b2: Byte, b3: Byte)
    ensures Octets(FromOctets(b0, b1, b2, b3)) == [b0, b1, b2, b3]
  {
    var t2 := b0 * 0x100 + b1;
    var t1 := t2 * 0x100 + b2;
    var a := t1 * 0x100 + b3;
    assert a / 0x100 == t1 && a % 0x100 == b3;
    assert t1 / 0x100 == t2 && t1 % 0x100 == b2;
    assert t2 / 0x100 == b0 && t2 % 0x100 == b1;
  }

  /** Distinct addresses have distinct octets. */
  lemma OctetsInjective(a: U32, b: U32)
    requires Octets(a) == Octets(b)
    ensures a == b
  {
  }
}
