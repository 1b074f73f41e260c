/** Diffie-Hellman key agreement (core/src/diffie_hellman.rs), over unbounded naturals.

    The prime is the First Oakley Group of section 6.1 of RFC 2409, with generator 2. Random bytes
    are a parameter. */
module DiffieHellman {
  import opened Powers

  newtype Byte = x: int | 0 <= x < 0x100

  const DH_GENERATOR: nat := 2
  const DH_PRIME_BYTES: seq<Byte> := [
    0xff, 0xff, 0xff, 0xff, 0xff, 0xff, 0xff, 0xff, 0xc9, 0x0f, 0xda, 0xa2, 0x21, 0x68, 0xc2,
    0x34, 0xc4, 0xc6, 0x62, 0x8b, 0x80, 0xdc, 0x1c, 0xd1, 0x29, 0x02, 0x4e, 0x08, 0x8a, 0x67,
    0xcc, 0x74, 0x02, 0x0b, 0xbe, 0xa6, 0x3b, 0x13, 0x9b, 0x22, 0x51, 0x4a, 0x08, 0x79, 0x8e,
    0x34, 0x04, 0xdd, 0xef, 0x95, 0x19, 0xb3, 0xcd, 0x3a, 0x43, 0x1b, 0x30, 0x2b, 0x0a, 0x6d,
    0xf2, 0x5f, 0x14, 0x37, 0x4f, 0xe1, 0x35, 0x6d, 0x6d, 0x51, 0xc2, 0x45, 0xe4, 0x85, 0xb5,
    0x76, 0x62, 0x5e, 0x7e, 0xc6, 0xf4, 0x4c, 0x42, 0xe9, 0xa6, 0x3a, 0x36, 0x20, 0xff, 0xff,
    0xff, 0xff, 0xff, 0xff, 0xff, 0xff
  ]

  // ----- Byte strings as numbers

  function FromBytesBe(s: seq<Byte>): nat {
    if s == [] then 0 else FromBytesBe(s[..|s| - 1]) * 256 + s[|s| - 1] as nat
  }

  function FromBytesLe(s: seq<Byte>): nat {
    if s == [] then 0 else s[0] as nat + 256 * FromBytesLe(s[1..])
  }

  function MinimalBytes(n: nat): seq<Byte> {
    if n == 0 then [] else MinimalBytes(n / 256) + [(n % 256) as Byte]
  }

  /** Big-endian bytes without leading zeros; a single zero byte for zero. */
  function ToBytesBe(n: nat): seq<Byte> {
    if n == 0 then [0] else MinimalBytes(n)
  }

  lemma {:induction false} MinimalRoundTrip(n: nat)
    ensures FromBytesBe(MinimalBytes(n)) == n
  {
    if n == 0 {
    } else {
      MinimalRoundTrip(n / 256);
      assert MinimalBytes(n)[..|MinimalBytes(n)| - 1] == MinimalBytes(n / 256);
    }
  }

  /** Reading back the printed bytes gives the number, zero included. */
  lemma BytesRoundTrip(n: nat)
    ensures FromBytesBe(ToBytesBe(n)) == n
  {
    MinimalRoundTrip(n);
    assert FromBytesBe([0][..0]) == 0;
  }

  lemma {:induction false} NoLeadingZero(n: nat)
    requires n > 0
    ensures MinimalBytes(n) != [] && MinimalBytes(n)[0] != 0
  {
    if n < 256 {
      assert MinimalBytes(n / 256) == [];
    } else {
      NoLeadingZero(n / 256);
    }
  }

  lemma {:induction false} MinimalIsUnique(s: seq<Byte>)
    requires s != [] ==> s[0] != 0
    ensures s == MinimalBytes(FromBytesBe(s))
  {
    if s == [] {
    } else {
      var front, last := s[..|s| - 1], s[|s| - 1];
      MinimalIsUnique(front);
      assert FromBytesBe(s) / 256 == FromBytesBe(front) && FromBytesBe(s) % 256 == last as nat;
      LeadingDigit(s);
      assert s == front + [last];
    }
  }

  lemma {:induction false} LeadingDigit(s: seq<Byte>)
    requires s != [] && s[0] != 0
    ensures FromBytesBe(s) > 0
  {
    if |s| == 1 {
      assert FromBytesBe(s[..0]) == 0;
    } else {
      LeadingDigit(s[..|s| - 1]);
    }
  }

  /** The bytes of a number are the only ones that give it back and have no leading zero; for zero it is
      a single zero byte. */
  lemma BytesExactly(n: nat, s: seq<Byte>)
    ensures s == ToBytesBe(n) <==> FromBytesBe(s) == n && (s == [0] || (s != [] && s[0] != 0))
  {
    BytesRoundTrip(n);
    if n > 0 {
      NoLeadingZero(n);
    }
    if s != [] && s[0] != 0 {
      LeadingDigit(s);
      MinimalIsUnique(s);
    } else if s == [0] {
      assert FromBytesBe(s[..0]) == 0;
    }
  }

  function Numbers(s: seq<Byte>): (ds: seq<nat>)
    ensures |ds| == |s| && forall i :: 0 <= i < |s| ==> ds[i] == s[i] as nat
  {
    seq(|s|, i requires 0 <= i < |s| => s[i] as nat)
  }

  /** In big-endian order the last byte counts once, the one before it 256 times, and so on. */
  lemma {:induction false} BigEndian(s: seq<Byte>)
    ensures FromBytesBe(s) == Weighted(256, Numbers(s))
  {
    if s == [] {
    } else {
      var n := |s| - 1;
      BigEndian(s[..n]);
      WeightedLast(256, Numbers(s[..n]), s[n] as nat);
      assert Numbers(s) == Numbers(s[..n]) + [s[n] as nat];
    }
  }

  function Reversed(s: seq<Byte>): (r: seq<Byte>)
    ensures |r| == |s| && forall i :: 0 <= i < |s| ==> r[i] == s[|s| - 1 - i]
  {
    seq(|s|, i requires 0 <= i < |s| => s[|s| - 1 - i])
  }

  /** Little-endian order is the reverse. */
  lemma {:induction false} LittleEndian(s: seq<Byte>)
    ensures FromBytesLe(s) == FromBytesBe(Reversed(s))
  {
    if s == [] {
    } else {
      LittleEndian(s[1..]);
      assert Reversed(s)[..|s| - 1] == Reversed(s[1..]);
    }
  }

  function DhPrime(): (p: nat)
    ensures 1 < p
  {
    var n := |DH_PRIME_BYTES| - 1;
    assert DH_PRIME_BYTES[n] == 0xff;
    FromBytesBe(DH_PRIME_BYTES)
  }

  // ----- Square and multiply

  lemma PowOdd(b: nat, e: nat)
    requires e % 2 == 1
    ensures Pow(b, e) == b * Pow(b * b, e / 2)
  {
    assert Pow(b, 2) == b * b by { assert Pow(b, 1) == b; }
    PowMul(b, 2, e / 2);
  }

  lemma PowEven(b: nat, e: nat)
    requires e % 2 == 0
    ensures Pow(b, e) == Pow(b * b, e / 2)
  {
    assert Pow(b, 2) == b * b by { assert Pow(b, 1) == b; }
    PowMul(b, 2, e / 2);
  }

  /** One round: the bit of the exponent goes into the result, the base is squared. */
  lemma Round(result: nat, b: nat, e: nat, m: nat)
    requires 0 < m && 0 < e
    ensures var next := if e % 2 == 1 then (result * b) % m else result;
      (next * Pow((b * b) % m, e / 2)) % m == (result * Pow(b, e)) % m
  {
    var half := Pow(b * b, e / 2);
    PowMod(b * b, e / 2, m);
    if e % 2 == 1 {
      PowOdd(b, e);
      assert result * (b * half) == result * b * half;
      ModMul(result * b, half, m);
      Substitute((result * b) % m, Pow((b * b) % m, e / 2), half, m);
    } else {
      PowEven(b, e);
      Substitute(result, Pow((b * b) % m, e / 2), half, m);
    }
  }

  lemma Substitute(x: nat, a: nat, b: nat, m: nat)
    requires 0 < m && a % m == b % m
    ensures (x * a) % m == (x * b) % m
  {
    ModCongruent(a, b, x, m);
    assert x * a == a * x && x * b == b * x;
  }

  ghost function PowmResult(base: nat, exp: nat, modulus: nat): nat
    requires 0 < modulus || exp == 0
  {
    if exp == 0 then 1 else Pow(base, exp) % modulus
  }

  /** `powm`: the source divides by `modulus` once for every bit of the exponent. */
  method Powm(base: nat, exp: nat, modulus: nat) returns (result: nat)
    requires 0 < modulus || exp == 0
    ensures result == PowmResult(base, exp, modulus)
  {
    var b: nat, e: nat := base, exp;
    result := 1;
    ghost var reduced := false;
    while e != 0
      invariant 0 < modulus ==> (result * Pow(b, e)) % modulus == Pow(base, exp) % modulus
      invariant exp == 0 ==> e == 0 && !reduced
      invariant reduced ==> result < modulus
      invariant !reduced ==> result == 1 && (e == 0 ==> exp == 0)
    {
      Round(result, b, e, modulus);
      if e % 2 == 1 {
        result := (result * b) % modulus;
        reduced := true;
      }
      e := e / 2;
      b := (b * b) % modulus;
    }
    if exp > 0 {
      assert Pow(b, e) == 1 && result * Pow(b, e) == result;
      DivModUnique(result, modulus, 0, result);
    }
  }

  /** `powm` is the modular power for every modulus above 1; for a modulus of 1 it is unless the
      exponent is zero. */
  lemma PowmIsModularPower(base: nat, exp: nat, modulus: nat)
    requires 0 < modulus
    ensures PowmResult(base, exp, modulus) == Pow(base, exp) % modulus <==> 1 < modulus || 0 < exp
  {
    if exp == 0 && 1 < modulus {
      DivModUnique(1, modulus, 0, 1);
    }
  }

  // ----- Key agreement

  class DhLocalKeys {
    const privateKey: nat
    const publicKey: nat

    ghost predicate Valid() {
      publicKey == Pow(DH_GENERATOR, privateKey) % DhPrime()
    }

    constructor (private: nat, public: nat)
      ensures privateKey == private && publicKey == public
    {
      privateKey, publicKey := private, public;
    }

    /** `DhLocalKeys::random`, given the 95 random bytes. */
    static method Random(bytes: seq<Byte>) returns (keys: DhLocalKeys)
      requires |bytes| == 95
      ensures keys.Valid() && keys.privateKey == FromBytesLe(bytes)
    {
      var private := FromBytesLe(bytes);
      var public := Powm(DH_GENERATOR, private, DhPrime());
      PowmIsModularPower(DH_GENERATOR, private, DhPrime());
      keys := new DhLocalKeys(private, public);
    }

    function PublicKey(): seq<Byte> {
      ToBytesBe(publicKey)
    }

    method SharedSecret(remoteKey: seq<Byte>) returns (secret: seq<Byte>)
      ensures secret == ToBytesBe(Pow(FromBytesBe(remoteKey), privateKey) % DhPrime())
    {
      var shared := Powm(FromBytesBe(remoteKey), privateKey, DhPrime());
      PowmIsModularPower(FromBytesBe(remoteKey), privateKey, DhPrime());
      secret := ToBytesBe(shared);
    }
  }

  /** What one party computes from the other's key is the generator to the product of both keys. */
  lemma SharedPower(remote: nat, local: nat, public: nat)
    requires public == Pow(DH_GENERATOR, remote) % DhPrime()
    ensures Pow(public, local) % DhPrime() == Pow(DH_GENERATOR, remote * local) % DhPrime()
  {
    PowMod(Pow(DH_GENERATOR, remote), local, DhPrime());
    PowMul(DH_GENERATOR, remote, local);
  }

  /** Two parties that exchange public keys as bytes derive the same secret bytes. */
  method Agree(a: DhLocalKeys, b: DhLocalKeys) returns (secretA: seq<Byte>, secretB: seq<Byte>)
    requires a.Valid() && b.Valid()
    ensures secretA == secretB == ToBytesBe(Pow(DH_GENERATOR, a.privateKey * b.privateKey) % DhPrime())
  {
    secretA := a.SharedSecret(b.PublicKey());
    secretB := b.SharedSecret(a.PublicKey());
    BytesRoundTrip(a.publicKey);
    BytesRoundTrip(b.publicKey);
    SharedPower(b.privateKey, a.privateKey, b.publicKey);
    SharedPower(a.privateKey, b.privateKey, a.publicKey);
    assert a.privateKey * b.privateKey == b.privateKey * a.privateKey;
  }
}
