/** Spotify IDs: the limb-wise base-62 printer and the checked parser (core/src/spotify_id.rs). */
module SpotifyIds {
  import opened Wrappers
  import opened Base62
  import opened Powers

  newtype u8 = x: int | 0 <= x < 0x100
  newtype u32 = x: int | 0 <= x < 0x1_0000_0000
  newtype u64 = x: int | 0 <= x < 0x1_0000_0000_0000_0000
  newtype u128 = x: int | 0 <= x < 0x1_0000_0000_0000_0000_0000_0000_0000_0000

  const LIMB: nat := 0x1_0000_0000

  // ----- Little-endian digit buffers

  /** Digits below 62 up to `i`, zeros from there on. */
  ghost predicate Buffer(d: seq<u8>, i: nat) {
    && i <= |d| == SIZE_BASE62
    && (forall k :: 0 <= k < |d| ==> d[k] < 62)
    && (forall k :: i <= k < |d| ==> d[k] == 0)
  }

  /** The value of the `j` least significant digits. */
  ghost function Low(d: seq<u8>, j: nat): nat
    requires j <= |d|
  {
    if j == 0 then 0 else Low(d, j - 1) + Pow(62, j - 1) * d[j - 1] as nat
  }

  /** The value of the digits from `j` on, as a number of its own. */
  ghost function High(d: seq<u8>, j: nat): nat
    requires j <= |d|
    decreases |d| - j
  {
    if j == |d| then 0 else d[j] as nat + 62 * High(d, j + 1)
  }

  lemma {:induction false} LowSame(d: seq<u8>, e: seq<u8>, j: nat)
    requires j <= |d| && j <= |e| && forall k :: 0 <= k < j ==> d[k] == e[k]
    ensures Low(d, j) == Low(e, j)
  {
    if j == 0 {
    } else {
      LowSame(d, e, j - 1);
    }
  }

  lemma {:induction false} HighSame(d: seq<u8>, e: seq<u8>, j: nat)
    requires j <= |d| == |e| && forall k :: j <= k < |d| ==> d[k] == e[k]
    ensures High(d, j) == High(e, j)
    decreases |d| - j
  {
    if j == |d| {
    } else {
      HighSame(d, e, j + 1);
    }
  }

  lemma {:induction false} HighZero(d: seq<u8>, j: nat)
    requires j <= |d| && forall k :: j <= k < |d| ==> d[k] == 0
    ensures High(d, j) == 0
    decreases |d| - j
  {
    if j == |d| {
    } else {
      HighZero(d, j + 1);
    }
  }

  lemma {:induction false} LowHigh(d: seq<u8>, j: nat)
    requires j <= |d|
    ensures Low(d, j) + Pow(62, j) * High(d, j) == High(d, 0)
  {
    if j == 0 {
    } else {
      LowHigh(d, j - 1);
      assert High(d, j - 1) == d[j - 1] as nat + 62 * High(d, j);
      Regroup(Pow(62, j - 1), d[j - 1] as nat, High(d, j));
      assert Pow(62, j) == 62 * Pow(62, j - 1);
    }
  }

  lemma Regroup(p: nat, x: nat, y: nat)
    ensures p * (x + 62 * y) == p * x + 62 * p * y
  {
  }

  /** Writing the remainder at `j` and carrying the quotient keeps the value. */
  lemma DigitWritten(d: seq<u8>, j: nat, digit: u8, rest: nat)
    requires j < |d|
    ensures Low(d[j := digit], j + 1) + Pow(62, j + 1) * rest == Low(d, j) + Pow(62, j) * (digit as nat + 62 * rest)
    ensures High(d[j := digit], j + 1) == High(d, j + 1)
  {
    var e := d[j := digit];
    LowSame(d, e, j);
    HighSame(d, e, j + 1);
    Regroup(Pow(62, j), digit as nat, rest);
    assert Pow(62, j + 1) == 62 * Pow(62, j);
  }

  /** What the buffer and the carry stand for: the digits below `j` are final, the digits from `j`
      on still have to be shifted by one limb. */
  ghost function InPass(d: seq<u8>, j: nat, carry: nat): nat
    requires j <= |d|
  {
    Low(d, j) + Pow(62, j) * (carry + LIMB * High(d, j))
  }

  ghost function InTail(d: seq<u8>, j: nat, carry: nat): nat
    requires j <= |d|
  {
    Low(d, j) + Pow(62, j) * carry
  }

  lemma PassStep(d: seq<u8>, i: nat, j: nat, carry: nat, cur: nat, digit: u8)
    requires Buffer(d, i) && j < i && cur == carry + d[j] as nat * LIMB
    requires digit as nat == cur % 62
    ensures Buffer(d[j := digit], i)
    ensures InPass(d, j, carry) == InPass(d[j := digit], j + 1, cur / 62)
  {
    var h := High(d, j + 1);
    DigitWritten(d, j, digit, cur / 62 + LIMB * h);
    assert carry + LIMB * High(d, j) == digit as nat + 62 * (cur / 62 + LIMB * h);
  }

  lemma TailStep(d: seq<u8>, j: nat, carry: nat, digit: u8)
    requires Buffer(d, j) && j < |d| && digit as nat == carry % 62
    ensures Buffer(d[j := digit], j + 1)
    ensures InTail(d, j, carry) == InTail(d[j := digit], j + 1, carry / 62)
  {
    DigitWritten(d, j, digit, carry / 62);
  }

  lemma PassEnds(d: seq<u8>, i: nat, carry: nat)
    requires Buffer(d, i)
    ensures InPass(d, i, carry) == InTail(d, i, carry)
    ensures InTail(d, i, 0) == High(d, 0)
  {
    HighZero(d, i);
    LowHigh(d, i);
  }

  lemma TooWide(j: nat)
    requires SIZE_BASE62 <= j
    ensures U128_LIMIT < Pow(62, j)
  {
    TwentyTwoDigitsSuffice();
    PowMonotonic(62, SIZE_BASE62, j);
  }

  lemma MulAtLeast(p: nat, c: nat)
    requires 0 < c
    ensures p <= p * c
  {
  }

  /** A carry left over after `j` digits of a 128-bit number still has room in the buffer. */
  lemma RoomForCarry(d: seq<u8>, j: nat, carry: nat)
    requires j <= |d| && InTail(d, j, carry) < U128_LIMIT && 0 < carry
    ensures j < SIZE_BASE62
  {
    MulAtLeast(Pow(62, j), carry);
    if SIZE_BASE62 <= j {
      TooWide(j);
    }
  }

  /** One round of the outer loop: the number in the buffer is shifted left by one 32-bit limb
      and `limb` is added. No intermediate value leaves the 64 bits of `carry`, which is below
      2^32 between digits, and no digit is written past the end of the buffer. */
  method PushLimb(dst: array<u8>, i: nat, limb: u32) returns (top: nat)
    requires Buffer(dst[..], i)
    requires High(dst[..], 0) * LIMB + limb as nat < U128_LIMIT
    modifies dst
    ensures i <= top && Buffer(dst[..], top)
    ensures High(dst[..], 0) == old(High(dst[..], 0)) * LIMB + limb as nat
  {
    ghost var d := dst[..];
    ghost var total := InPass(d, 0, limb as nat);
    assert total == High(d, 0) * LIMB + limb as nat;
    var carry := limb as u64;
    for j := 0 to i
      invariant d == dst[..] && Buffer(d, i) && carry < 0x1_0000_0000
      invariant InPass(d, j, carry as nat) == total
    {
      ghost var before := carry;
      assert dst[j] == d[j] < 62;
      carry := carry + (dst[j] as u64) * 0x1_0000_0000;
      ghost var cur := carry;
      dst[j] := (carry % 62) as u8;
      carry := carry / 62;
      PassStep(d, i, j, before as nat, cur as nat, dst[j]);
      d := d[j := dst[j]];
    }
    PassEnds(d, i, carry as nat);
    top := i;
    while carry > 0
      invariant i <= top && d == dst[..] && Buffer(d, top)
      invariant InTail(d, top, carry as nat) == total
    {
      RoomForCarry(d, top, carry as nat);
      ghost var before := carry;
      dst[top] := (carry % 62) as u8;
      carry := carry / 62;
      TailStep(d, top, before as nat, dst[top]);
      d := d[top := dst[top]];
      top := top + 1;
    }
    PassEnds(d, top, 0);
  }

  // ----- Printing

  lemma QuotientAtMost(n: nat, d: nat)
    requires d > 0
    ensures n / d <= n
  {
    if n / d > 0 {
      MulAtLeast(n / d, d);
    }
  }

  /** The `k` most significant 32-bit limbs of a 128-bit number. */
  ghost function Limbs(n: nat, k: nat): nat
    requires k <= 4
  {
    PowPositive(LIMB, 4 - k);
    n / Pow(LIMB, 4 - k)
  }

  lemma NextLimb(n: nat, k: nat)
    requires k < 4
    ensures Limbs(n, k + 1) == Limbs(n, k) * LIMB + Limbs(n, k + 1) % LIMB
    ensures Limbs(n, k + 1) <= n
  {
    PowPositive(LIMB, 3 - k);
    var p := Pow(LIMB, 3 - k);
    DivDiv(n, p, LIMB);
    assert Pow(LIMB, 4 - k) == p * LIMB;
    QuotientAtMost(n, p);
  }

  /** `n >> 96`, `n >> 64`, `n >> 32` and `n`, as `u32`. */
  method LimbOf(n: u128, k: nat) returns (limb: u32)
    requires k < 4
    ensures limb as nat == Limbs(n as nat, k + 1) % LIMB
  {
    assert Pow(LIMB, 0) == 1 && Pow(LIMB, 1) == LIMB;
    assert Pow(LIMB, 2) == LIMB * LIMB && Pow(LIMB, 3) == LIMB * LIMB * LIMB;
    var shifted := match k
      case 0 => n / 0x1_0000_0000_0000_0000_0000_0000
      case 1 => n / 0x1_0000_0000_0000_0000
      case 2 => n / 0x1_0000_0000
      case _ => n;
    limb := (shifted % 0x1_0000_0000) as u32;
  }

  /** The digits from `j` on as characters, most significant first. */
  ghost function Chars(d: seq<u8>, j: nat): string
    requires j <= |d| && forall k :: 0 <= k < |d| ==> d[k] < 62
    decreases |d| - j
  {
    if j == |d| then [] else Chars(d, j + 1) + [CharOf(d[j] as nat)]
  }

  lemma {:induction false} CharsAreNumeral(d: seq<u8>, j: nat)
    requires Buffer(d, |d|) && j <= |d|
    ensures Chars(d, j) == Numeral(High(d, j), |d| - j)
    decreases |d| - j
  {
    if j == |d| {
    } else {
      CharsAreNumeral(d, j + 1);
      SplitDigit(High(d, j + 1), d[j] as nat);
    }
  }

  /** `SpotifyId::to_base62`: exactly the 22-digit base-62 expansion of the id. */
  method ToBase62(id: u128) returns (s: string)
    ensures s == Encode(id as nat)
    ensures IsPrinted(s, id as nat)
  {
    var dst := new u8[22](_ => 0);
    var i := 0;
    HighZero(dst[..], 0);
    DivIsZero(id as nat);
    for k := 0 to 4
      invariant Buffer(dst[..], i)
      invariant High(dst[..], 0) == Limbs(id as nat, k)
    {
      NextLimb(id as nat, k);
      var limb := LimbOf(id, k);
      i := PushLimb(dst, i, limb);
    }
    s := Digits(dst, i, id as nat);
    EncodeExactly(id as nat);
  }

  /** The final loop of `to_base62`: the digits in reverse order, through the digit table. */
  method Digits(dst: array<u8>, i: nat, ghost n: nat) returns (s: string)
    requires Buffer(dst[..], i) && High(dst[..], 0) == Limbs(n, 4)
    ensures s == Encode(n)
  {
    s := [];
    ghost var d := dst[..];
    for k := dst.Length downto 0
      invariant s == Chars(d, k) && dst[..] == d
    {
      s := s + [CharOf(dst[k] as nat)];
    }
    CharsAreEncoded(d, n);
  }

  lemma CharsAreEncoded(d: seq<u8>, n: nat)
    requires Buffer(d, |d|) && |d| == SIZE_BASE62 && High(d, 0) == Limbs(n, 4)
    ensures Chars(d, 0) == Encode(n)
  {
    CharsAreNumeral(d, 0);
    assert Pow(LIMB, 0) == 1;
  }

  lemma DivIsZero(n: nat)
    requires n < U128_LIMIT
    ensures Limbs(n, 0) == 0
  {
    assert Pow(LIMB, 2) == LIMB * LIMB;
    PowAdd(LIMB, 2, 2);
    DivModUnique(n, Pow(LIMB, 4), 0, n);
  }

  // ----- Parsing

  /** `SpotifyId::from_base62`, with the overflow checks of `checked_mul` and `checked_add`. */
  method FromBase62(src: string) returns (r: Result<nat, IdError>)
    ensures r == Decode(src)
    ensures r.Ok? <==>
      |src| == 22 && exists ds :: Spells(src, ds) && Weighted(62, ds) < U128_LIMIT && r == Ok(Weighted(62, ds))
  {
    if |src| != SIZE_BASE62 {
      return Err(InvalidId);
    }
    var dst: u128 := 0;
    for k := 0 to |src|
      invariant forall m :: 0 <= m < k ==> DigitOf(src[m]).Some?
      invariant AllDigits(src) ==> dst as nat == ValueTo(src, k)
    {
      var digit := DigitOf(src[k]);
      if digit.None? {
        return Err(InvalidId);
      }
      if AllDigits(src) { ValueGrows(src, k + 1, |src|); }
      var product := dst as nat * 62;
      if product >= U128_LIMIT {
        return Err(InvalidId);
      }
      var sum := product + digit.value;
      if sum >= U128_LIMIT {
        return Err(InvalidId);
      }
      dst := sum as u128;
    }
    DecodeExactly(src, dst as nat);
    return Ok(dst as nat);
  }
}
