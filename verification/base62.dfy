/** Base-62 numerals and the 22-character form of a Spotify ID (core/src/spotify_id.rs). */
module Base62 {
  import opened Powers
  import opened Wrappers

  const U128_LIMIT: nat := 0x1_0000_0000_0000_0000_0000_0000_0000_0000
  const SIZE_BASE62: nat := 22

  datatype IdError = InvalidId

  /** A 22-digit base-62 numeral can hold any 128-bit number. */
  lemma TwentyTwoDigitsSuffice()
    ensures U128_LIMIT < Pow(62, SIZE_BASE62)
  {
    assert Pow(62, 2) == 3844;
    PowAdd(62, 2, 2);
    PowAdd(62, 4, 4);
    PowAdd(62, 8, 8);
    PowAdd(62, 16, 4);
    PowAdd(62, 20, 2);
  }

  // ----- Characters and digits

  /** The entry at `d` of the digit table: '0' to '9', then 'a' to 'z', then 'A' to 'Z'. */
  function CharOf(d: nat): char
    requires d < 62
  {
    if d < 10 then '0' + d as char
    else if d < 36 then 'a' + (d - 10) as char
    else 'A' + (d - 36) as char
  }

  function DigitOf(c: char): Option<nat> {
    if '0' <= c <= '9' then Some((c - '0') as nat)
    else if 'a' <= c <= 'z' then Some((c - 'a') as nat + 10)
    else if 'A' <= c <= 'Z' then Some((c - 'A') as nat + 36)
    else None
  }

  /** Digits and the 62 alphanumeric characters correspond one to one. */
  lemma DigitOfChar(d: nat)
    requires d < 62
    ensures DigitOf(CharOf(d)) == Some(d)
  {
  }

  lemma CharOfDigit(c: char)
    requires DigitOf(c).Some?
    ensures DigitOf(c).value < 62 && CharOf(DigitOf(c).value) == c
  {
  }

  // ----- Numerals, most significant digit first

  /** The value of the first `k` characters, once all of them are digits. */
  function ValueTo(s: string, k: nat): nat
    requires k <= |s| && AllDigits(s)
  {
    if k == 0 then 0 else ValueTo(s, k - 1) * 62 + DigitOf(s[k - 1]).value
  }

  predicate AllDigits(s: string) {
    forall i :: 0 <= i < |s| ==> DigitOf(s[i]).Some?
  }

  /** The last `k` base-62 digits of `n`. */
  function Numeral(n: nat, k: nat): (s: string)
    ensures |s| == k
  {
    if k == 0 then [] else Numeral(n / 62, k - 1) + [CharOf(n % 62)]
  }

  function Encode(id: nat): (s: string) {
    Numeral(id, SIZE_BASE62)
  }

  function Decode(s: string): Result<nat, IdError> {
    if |s| == SIZE_BASE62 && AllDigits(s) && ValueTo(s, |s|) < U128_LIMIT then Ok(ValueTo(s, |s|))
    else Err(InvalidId)
  }

  lemma {:induction false} NumeralDigits(n: nat, k: nat)
    ensures AllDigits(Numeral(n, k))
  {
    if k == 0 {
    } else {
      NumeralDigits(n / 62, k - 1);
      DigitOfChar(n % 62);
    }
  }

  lemma SamePrefix(a: string, b: string, k: nat)
    requires 0 < k <= |a| && k <= |b| && a[..k] == b[..k]
    ensures a[k - 1] == b[k - 1] && a[..k - 1] == b[..k - 1]
  {
    assert a[k - 1] == a[..k][k - 1] && b[k - 1] == b[..k][k - 1];
    assert a[..k - 1] == a[..k][..k - 1] && b[..k - 1] == b[..k][..k - 1];
  }

  lemma {:induction false} SameValue(a: string, b: string, k: nat)
    requires AllDigits(a) && AllDigits(b) && k <= |a| && k <= |b| && a[..k] == b[..k]
    ensures ValueTo(a, k) == ValueTo(b, k)
  {
    if k == 0 {
    } else {
      SamePrefix(a, b, k);
      SameValue(a, b, k - 1);
    }
  }

  lemma DivMod62(n: nat)
    ensures n == n / 62 * 62 + n % 62
  {
  }

  lemma SplitDigit(v: nat, d: nat)
    requires d < 62
    ensures (v * 62 + d) / 62 == v && (v * 62 + d) % 62 == d
  {
  }

  lemma {:induction false} ValueOfNumeral(n: nat, k: nat)
    requires n < Pow(62, k)
    ensures AllDigits(Numeral(n, k)) && ValueTo(Numeral(n, k), k) == n
  {
    NumeralDigits(n, k);
    if k == 0 {
    } else {
      var s, front := Numeral(n, k), Numeral(n / 62, k - 1);
      assert s[..k - 1] == front[..k - 1];
      ValueOfNumeral(n / 62, k - 1);
      SameValue(s, front, k - 1);
      DigitOfChar(n % 62);
      DivMod62(n);
    }
  }

  lemma {:induction false} NumeralOfValue(s: string, k: nat)
    requires AllDigits(s) && k <= |s|
    ensures Numeral(ValueTo(s, k), k) == s[..k] && ValueTo(s, k) < Pow(62, k)
  {
    if k == 0 {
    } else {
      NumeralOfValue(s, k - 1);
      CharOfDigit(s[k - 1]);
      SplitDigit(ValueTo(s, k - 1), DigitOf(s[k - 1]).value);
      assert s[..k] == s[..k - 1] + [s[k - 1]];
    }
  }

  /** Decoding inverts encoding on every 128-bit number. */
  lemma DecodeEncode(id: nat)
    requires id < U128_LIMIT
    ensures Decode(Encode(id)) == Ok(id)
  {
    TwentyTwoDigitsSuffice();
    ValueOfNumeral(id, SIZE_BASE62);
  }

  /** Encoding inverts decoding on every accepted string. */
  lemma EncodeDecode(s: string)
    requires Decode(s).Ok?
    ensures Decode(s).value < U128_LIMIT && Encode(Decode(s).value) == s
  {
    NumeralOfValue(s, |s|);
    assert s[..|s|] == s;
  }

  /** The accepted strings are exactly the encodings of 128-bit numbers. */
  lemma AcceptedAreEncodings(s: string)
    ensures Decode(s).Ok? <==> exists id :: 0 <= id < U128_LIMIT && s == Encode(id)
  {
    if Decode(s).Ok? {
      EncodeDecode(s);
    }
    if exists id :: 0 <= id < U128_LIMIT && s == Encode(id) {
      var id: nat :| id < U128_LIMIT && s == Encode(id);
      DecodeEncode(id);
    }
  }

  /** A prefix that has overflowed stays overflowed, whatever digits follow. */
  lemma {:induction false} ValueGrows(s: string, k: nat, n: nat)
    requires AllDigits(s) && k <= n <= |s|
    ensures ValueTo(s, k) <= ValueTo(s, n)
  {
    if k == n {
    } else {
      ValueGrows(s, k, n - 1);
    }
  }

  // ----- The digit table, character by character

  const TABLE := "0123456789" + "abcdefghijklmnopqrstuvwxyz" + "ABCDEFGHIJKLMNOPQRSTUVWXYZ"

  lemma InThree(a: string, b: string, c: string, i: nat)
    requires i < |a| + |b| + |c|
    ensures (a + b + c)[i] ==
      if i < |a| then a[i] else if i < |a| + |b| then b[i - |a|] else c[i - |a| - |b|]
  {
  }

  lemma Numbers(i: nat)
    requires i < 10
    ensures "0123456789"[i] == '0' + i as char
  {
  }

  lemma Lower(i: nat)
    requires i < 26
    ensures "abcdefghijklmnopqrstuvwxyz"[i] == 'a' + i as char
  {
  }

  lemma Upper(i: nat)
    requires i < 26
    ensures "ABCDEFGHIJKLMNOPQRSTUVWXYZ"[i] == 'A' + i as char
  {
  }

  /** The table entry of a digit and the digit of a character are those of the literal table. */
  lemma TableEntry(d: nat)
    requires d < 62
    ensures |TABLE| == 62 && CharOf(d) == TABLE[d] && DigitOf(TABLE[d]) == Some(d)
  {
    InThree("0123456789", "abcdefghijklmnopqrstuvwxyz", "ABCDEFGHIJKLMNOPQRSTUVWXYZ", d);
    if d < 10 {
      Numbers(d);
    } else if d < 36 {
      Lower(d - 10);
    } else {
      Upper(d - 36);
    }
  }

  lemma InTable(c: char)
    ensures c in TABLE <==> DigitOf(c).Some?
  {
    if DigitOf(c).Some? {
      CharOfDigit(c);
      TableEntry(DigitOf(c).value);
    } else if c in TABLE {
      var d: nat :| d < |TABLE| && TABLE[d] == c;
      TableEntry(d);
    }
  }

  /** The digit of `n` at the `j`-th power of 62. */
  function DigitAt(n: nat, j: nat): (d: nat)
    ensures d < 62
  {
    PowPositive(62, j);
    n / Pow(62, j) % 62
  }

  /** Character `i` of a numeral is the table entry of the digit at that power of 62. */
  lemma {:induction false} NumeralChar(n: nat, k: nat, i: nat)
    requires i < k
    ensures |TABLE| == 62 && Numeral(n, k)[i] == TABLE[DigitAt(n, k - 1 - i)]
  {
    TableEntry(DigitAt(n, k - 1 - i));
    if i == k - 1 {
      assert Pow(62, 0) == 1 && n / 1 == n;
    } else {
      NumeralChar(n / 62, k - 1, i);
      PowPositive(62, k - 2 - i);
      DivDiv(n, 62, Pow(62, k - 2 - i));
      assert Pow(62, k - 1 - i) == 62 * Pow(62, k - 2 - i);
    }
  }

  /** The digits at whose table entries the characters of the string stand. */
  predicate Spells(s: string, ds: seq<nat>) {
    |ds| == |s| && |TABLE| == 62 && forall i :: 0 <= i < |s| ==> ds[i] < 62 && s[i] == TABLE[ds[i]]
  }

  lemma SpelledDigit(s: string, ds: seq<nat>, i: nat)
    requires Spells(s, ds) && i < |s|
    ensures DigitOf(s[i]) == Some(ds[i])
  {
    TableEntry(ds[i]);
  }

  lemma TakeOneMore(ds: seq<nat>, k: nat)
    requires k < |ds|
    ensures ds[..k + 1] == ds[..k] + [ds[k]]
  {
  }

  lemma {:induction false} ValueIsWeighted(s: string, ds: seq<nat>, k: nat)
    requires Spells(s, ds) && AllDigits(s) && k <= |s|
    ensures ValueTo(s, k) == Weighted(62, ds[..k])
  {
    if k == 0 {
    } else {
      ValueIsWeighted(s, ds, k - 1);
      SpelledDigit(s, ds, k - 1);
      TakeOneMore(ds, k - 1);
      WeightedLast(62, ds[..k - 1], ds[k - 1]);
    }
  }

  lemma SpelledAreDigits(s: string, ds: seq<nat>)
    requires Spells(s, ds)
    ensures AllDigits(s)
  {
    forall i | 0 <= i < |s| ensures DigitOf(s[i]).Some? {
      SpelledDigit(s, ds, i);
    }
  }

  lemma SpelledBy(s: string) returns (ds: seq<nat>)
    requires AllDigits(s)
    ensures Spells(s, ds)
  {
    ds := seq(|s|, i requires 0 <= i < |s| => DigitOf(s[i]).value);
    TableEntry(0);
    forall i | 0 <= i < |s| ensures ds[i] < 62 && s[i] == TABLE[ds[i]] {
      CharOfDigit(s[i]);
      TableEntry(ds[i]);
    }
  }

  lemma SpelledValue(s: string, ds: seq<nat>)
    requires Spells(s, ds)
    ensures AllDigits(s) && ValueTo(s, |s|) == Weighted(62, ds)
  {
    SpelledAreDigits(s, ds);
    ValueIsWeighted(s, ds, |s|);
    assert ds[..|s|] == ds;
  }

  /** A string stands for an id exactly when it consists of 22 characters of the table, and the sum of
      their positions times the powers of 62 is that 128-bit number; any other string is rejected. */
  lemma DecodeExactly(s: string, id: nat)
    ensures Decode(s) == Ok(id) <==>
      |s| == 22 && id < U128_LIMIT && exists ds :: Spells(s, ds) && Weighted(62, ds) == id
    ensures (exists c :: c in s && c !in TABLE) ==> Decode(s) == Err(InvalidId)
  {
    if Decode(s) == Ok(id) {
      var ds := SpelledBy(s);
      SpelledValue(s, ds);
    }
    if ds :| Spells(s, ds) && Weighted(62, ds) == id {
      SpelledValue(s, ds);
    }
    if c :| c in s && c !in TABLE {
      InTable(c);
    }
  }

  /** The string consists of the table entries of the 22 base-62 digits of the id. */
  predicate IsPrinted(s: string, id: nat) {
    |s| == 22 && |TABLE| == 62 && forall i :: 0 <= i < 22 ==> s[i] == TABLE[DigitAt(id, 21 - i)]
  }

  lemma EncodeExactly(id: nat)
    ensures IsPrinted(Encode(id), id)
  {
    TableEntry(0);
    forall i | 0 <= i < 22 ensures Encode(id)[i] == TABLE[DigitAt(id, 21 - i)] {
      NumeralChar(id, 22, i);
    }
  }
}
