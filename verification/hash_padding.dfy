/** Normalisation of stored resource hashes.

    A resource hash is a 16-byte value written as 32 hexadecimal characters.
    Legacy rows may hold it without its leading zeros; on read it is
    left-padded with '0' up to 32 characters. Longer strings pass through.
 */
module HashPadding {

  /** The length of a well-formed hash: 16 bytes, two hex digits each. */
  const HashLength: nat := 32

  /** `n` copies of the character '0'. */
  function Zeros(n: nat): (z: string)
    ensures |z| == n
    ensures forall i :: 0 <= i < n ==> z[i] == '0'
  {
    if n == 0 then [] else ['0'] + Zeros(n - 1)
  }

  /** The stored hash as the repository hands it out. */
  function Padded(hash: string): (r: string)
    ensures |hash| < HashLength ==>
              && |r| == HashLength
              && r[HashLength - |hash|..] == hash
              && forall i :: 0 <= i < HashLength - |hash| ==> r[i] == '0'
    ensures |hash| >= HashLength ==> r == hash
  {
    if |hash| == HashLength then hash
    else if |hash| < HashLength then Zeros(HashLength - |hash|) + hash
    else hash
  }

  /** The same string-builder loop, one '0' per missing character, then the hash. */
  method PadWithBuilder(hash: string) returns (r: string)
    ensures r == Padded(hash)
  {
    if |hash| == HashLength {
      return hash;
    }
    if |hash| < HashLength {
      var sb: string := [];
      var i := |hash|;
      while i < HashLength
        invariant |hash| <= i <= HashLength
        invariant |sb| == i - |hash|
        invariant forall k :: 0 <= k < |sb| ==> sb[k] == '0'
      {
        sb := sb + "0";
        i := i + 1;
      }
      sb := sb + hash;
      assert sb == Zeros(HashLength - |hash|) + hash;
      return sb;
    }
    return hash;
  }

  /** Character-by-character description of a padded hash, independent of `Padded`:
      as long as the hash or 32, whichever is more, zeros first, the hash last. */
  ghost predicate IsPaddingOf(hash: string, r: string)
  {
    && |r| == (if |hash| < HashLength then HashLength else |hash|)
    && forall i :: 0 <= i < |r| ==>
         r[i] == (if i < |r| - |hash| then '0' else hash[i - (|r| - |hash|)])
  }

  /** `Padded` computes exactly the padding described character by character. */
  lemma PaddedIsPadding(hash: string, r: string)
    ensures r == Padded(hash) <==> IsPaddingOf(hash, r)
  {
  }

  /** Every hash handed out is at least 32 characters long. */
  lemma PaddedLength(hash: string)
    ensures |Padded(hash)| >= HashLength
    ensures |Padded(hash)| == if |hash| < HashLength then HashLength else |hash|
  {
  }

  /** Padding a padded hash changes nothing. */
  lemma PaddedIdempotent(hash: string)
    ensures Padded(Padded(hash)) == Padded(hash)
  {
  }

  /** A stored hash with an extra leading zero reads back the same. */
  lemma LeadingZeroIgnored(hash: string)
    requires |hash| < HashLength
    ensures Padded(['0'] + hash) == Padded(hash)
  {
  }

  /** The worked example of a six-character legacy hash. */
  lemma PaddedExample()
    ensures Padded("abc123") == "00000000000000000000000000abc123"
  {
  }

  // ---------------------------------------------------------------------
  // The number a hash denotes

  predicate IsHexDigit(c: char)
  {
    ('0' <= c <= '9') || ('a' <= c <= 'f') || ('A' <= c <= 'F')
  }

  function DigitValue(c: char): (d: nat)
    requires IsHexDigit(c)
    ensures d < 16
  {
    if '0' <= c <= '9' then (c as int) - ('0' as int)
    else if 'a' <= c <= 'f' then (c as int) - ('a' as int) + 10
    else (c as int) - ('A' as int) + 10
  }

  predicate IsHex(s: string)
  {
    forall i :: 0 <= i < |s| ==> IsHexDigit(s[i])
  }

  function Pow16(n: nat): (p: nat)
    ensures p >= 1
  {
    if n == 0 then 1 else 16 * Pow16(n - 1)
  }

  /** The value of a hexadecimal string, most significant digit first. */
  function HexValue(s: string): nat
    requires IsHex(s)
  {
    if |s| == 0 then 0 else DigitValue(s[0]) * Pow16(|s| - 1) + HexValue(s[1..])
  }

  /** A hex string of `n` digits denotes a number below 16^n. */
  lemma {:induction false} HexValueBound(s: string)
    requires IsHex(s)
    ensures HexValue(s) < Pow16(|s|)
  {
    if |s| > 0 {
      HexValueBound(s[1..]);
      var d, p := DigitValue(s[0]), Pow16(|s| - 1);
      ScaleBelow(d, 15, p);
      assert HexValue(s) == d * p + HexValue(s[1..]);
      assert Pow16(|s|) == 16 * p;
    }
  }

  lemma ScaleBelow(a: nat, b: nat, p: nat)
    requires a <= b
    ensures a * p <= b * p
  {
  }

  /** Leading zeros do not change the number a hex string denotes. */
  lemma {:induction false} LeadingZerosKeepValue(n: nat, s: string)
    requires IsHex(s)
    ensures IsHex(Zeros(n) + s)
    ensures HexValue(Zeros(n) + s) == HexValue(s)
  {
    if n > 0 {
      LeadingZerosKeepValue(n - 1, s);
      var t := Zeros(n) + s;
      assert t[1..] == Zeros(n - 1) + s;
      assert t[0] == '0';
      assert IsHex(t);
      assert DigitValue(t[0]) == 0;
      assert HexValue(t) == 0 * Pow16(|t| - 1) + HexValue(t[1..]);
    } else {
      assert Zeros(n) + s == s;
    }
  }

  /** Padding keeps a hex hash hex and keeps the number it denotes. */
  lemma PaddedKeepsValue(hash: string)
    requires IsHex(hash)
    ensures IsHex(Padded(hash))
    ensures HexValue(Padded(hash)) == HexValue(hash)
  {
    if |hash| < HashLength {
      LeadingZerosKeepValue(HashLength - |hash|, hash);
    }
  }

  /** Two hex hashes that read back as the same string denote the same value,
      so merging them loses no hash value. */
  lemma SamePaddingSameValue(a: string, b: string)
    requires IsHex(a) && IsHex(b)
    requires Padded(a) == Padded(b)
    ensures HexValue(a) == HexValue(b)
  {
    PaddedKeepsValue(a);
    PaddedKeepsValue(b);
  }

  /** A hex hash of at most 32 digits reads back as exactly 32 digits
      denoting a number that fits in 16 bytes. */
  lemma PaddedFitsSixteenBytes(hash: string)
    requires IsHex(hash) && |hash| <= HashLength
    ensures |Padded(hash)| == HashLength
    ensures HexValue(Padded(hash)) < Pow16(HashLength)
  {
    PaddedKeepsValue(hash);
    HexValueBound(Padded(hash));
  }
}
