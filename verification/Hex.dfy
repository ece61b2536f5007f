/** Hexadecimal text of byte strings (src/identity.rs). */
module Hex {
  import opened Base

  const DIGITS: string := "0123456789abcdef"

  /** `decode_nibble`: either letter case, nothing else. */
  function DecodeNibble(c: char): (r: Option<nat>)
    ensures r.Some? ==> r.value < 16
  {
    if '0' <= c <= '9' then Some(c as nat - '0' as nat)
    else if 'a' <= c <= 'f' then Some(c as nat - 'a' as nat + 10)
    else if 'A' <= c <= 'F' then Some(c as nat - 'A' as nat + 10)
    else None
  }

  predicate IsHexDigit(c: char) {
    DecodeNibble(c).Some?
  }

  function NibbleValue(c: char): (v: nat)
    ensures v < 16
  {
    match DecodeNibble(c) case Some(v) => v case None => 0
  }

  function LowerDigit(c: char): char {
    if 'A' <= c <= 'F' then c - 'A' + 'a' else c
  }

  /** The digit at position `k` of the text of `bytes`. */
  function DigitAt(bytes: Bytes, k: nat): char
    requires k < 2 * |bytes|
  {
    DIGITS[if k % 2 == 0 then bytes[k / 2] / 16 else bytes[k / 2] % 16]
  }

  /** Two lowercase digits a byte, high nibble first. */
  function HexText(bytes: Bytes): (s: string)
    ensures |s| == 2 * |bytes|
  {
    seq(2 * |bytes|, k requires 0 <= k < 2 * |bytes| => DigitAt(bytes, k))
  }

  predicate IsHexText(n: nat, s: string) {
    |s| == 2 * n && forall i | 0 <= i < |s| :: IsHexDigit(s[i])
  }

  /** What `decode_hex_array::<n>` promises: the `n` bytes a text of `2n` digits spells. */
  function HexBytes(n: nat, s: string): (r: Option<Bytes>)
    ensures r.Some? ==> |r.value| == n
  {
    if IsHexText(n, s) then
      Some(seq(n, i requires 0 <= i < n => 16 * NibbleValue(s[2 * i]) + NibbleValue(s[2 * i + 1])))
    else None
  }

  /** `encode_hex`: the loop pushes two digits for every byte. */
  method EncodeHex(bytes: Bytes) returns (encoded: string)
    ensures encoded == HexText(bytes)
  {
    encoded := "";
    for i := 0 to |bytes|
      invariant |encoded| == 2 * i
      invariant forall k | 0 <= k < 2 * i :: encoded[k] == DigitAt(bytes, k)
    {
      encoded := encoded + [DIGITS[bytes[i] / 16]];
      encoded := encoded + [DIGITS[bytes[i] % 16]];
    }
  }

  /** `decode_hex_array`: fills a fixed array pair by pair and stops at the first bad digit. */
  method DecodeHexArray(n: nat, encoded: string) returns (r: Option<Bytes>)
    ensures r == HexBytes(n, encoded)
  {
    if |encoded| != 2 * n {
      return None;
    }
    var decoded := new byte[n](_ => 0);
    for index := 0 to n
      invariant forall k | 0 <= k < 2 * index :: IsHexDigit(encoded[k])
      invariant forall i | 0 <= i < index ::
          decoded[i] == 16 * NibbleValue(encoded[2 * i]) + NibbleValue(encoded[2 * i + 1])
    {
      var high := DecodeNibble(encoded[2 * index]);
      if high.None? {
        return None;
      }
      var low := DecodeNibble(encoded[2 * index + 1]);
      if low.None? {
        return None;
      }
      decoded[index] := 16 * high.value + low.value;
    }
    assert IsHexText(n, encoded);
    assert decoded[..] == HexBytes(n, encoded).value;
    r := Some(decoded[..]);
  }

  lemma DigitIsHex(v: nat)
    requires v < 16
    ensures IsHexDigit(DIGITS[v]) && NibbleValue(DIGITS[v]) == v
    ensures DIGITS[v] < 128 as char && LowerDigit(DIGITS[v]) == DIGITS[v]
  {
  }

  lemma LowerIsDigitOfValue(c: char)
    requires IsHexDigit(c)
    ensures DIGITS[NibbleValue(c)] == LowerDigit(c)
  {
  }

  lemma HexTextIsHex(bytes: Bytes)
    ensures IsHexText(|bytes|, HexText(bytes))
    ensures IsAscii(HexText(bytes))
  {
    forall k | 0 <= k < 2 * |bytes|
      ensures IsHexDigit(HexText(bytes)[k]) && HexText(bytes)[k] < 128 as char
    {
      DigitIsHex(if k % 2 == 0 then bytes[k / 2] / 16 else bytes[k / 2] % 16);
    }
  }

  /** The two digits of one byte spell that byte. */
  lemma PairSpellsByte(bytes: Bytes, i: nat)
    requires i < |bytes|
    ensures NibbleValue(HexText(bytes)[2 * i]) == bytes[i] / 16
    ensures NibbleValue(HexText(bytes)[2 * i + 1]) == bytes[i] % 16
  {
    assert (2 * i) / 2 == i && (2 * i) % 2 == 0 && (2 * i + 1) / 2 == i && (2 * i + 1) % 2 == 1;
    DigitIsHex(bytes[i] / 16);
    DigitIsHex(bytes[i] % 16);
  }

  /** Decoding the text of any bytes returns those bytes. */
  lemma HexRoundTrip(bytes: Bytes)
    ensures HexBytes(|bytes|, HexText(bytes)) == Some(bytes)
  {
    HexTextIsHex(bytes);
    var s := HexText(bytes);
    var decoded := HexBytes(|bytes|, s).value;
    forall i | 0 <= i < |bytes|
      ensures decoded[i] == bytes[i]
    {
      PairSpellsByte(bytes, i);
    }
    assert decoded == bytes;
  }

  lemma HexTextInjective(a: Bytes, b: Bytes)
    requires HexText(a) == HexText(b)
    ensures a == b
  {
    HexRoundTrip(a);
    HexRoundTrip(b);
  }

  /** Decoding succeeds exactly on `2n` digits of either case, and re-encoding lowers the case. */
  lemma HexDecodesExactly(n: nat, s: string)
    ensures HexBytes(n, s).Some? <==> |s| == 2 * n && forall i | 0 <= i < |s| ::
                (var c := s[i]; '0' <= c <= '9' || 'a' <= c <= 'f' || 'A' <= c <= 'F')
    ensures HexBytes(n, s).Some? ==>
              HexText(HexBytes(n, s).value) == seq(|s|, i requires 0 <= i < |s| => LowerDigit(s[i]))
  {
    assert forall i | 0 <= i < |s| :: IsHexDigit(s[i]) <==>
        ('0' <= s[i] <= '9' || 'a' <= s[i] <= 'f' || 'A' <= s[i] <= 'F');
    if HexBytes(n, s).Some? {
      var bytes := HexBytes(n, s).value;
      forall k | 0 <= k < |s|
        ensures DigitAt(bytes, k) == LowerDigit(s[k])
      {
        var i := k / 2;
        assert bytes[i] == 16 * NibbleValue(s[2 * i]) + NibbleValue(s[2 * i + 1]);
        assert bytes[i] / 16 == NibbleValue(s[2 * i]) && bytes[i] % 16 == NibbleValue(s[2 * i + 1]);
        assert k == if k % 2 == 0 then 2 * i else 2 * i + 1;
        LowerIsDigitOfValue(s[k]);
      }
    }
  }

  /** Byte `i` is written as its two lowercase digits, the sixteens first. */
  lemma HexTextExactly(bytes: Bytes, i: nat)
    requires i < |bytes|
    ensures HexText(bytes)[2 * i] == "0123456789abcdef"[bytes[i] / 16]
    ensures HexText(bytes)[2 * i + 1] == "0123456789abcdef"[bytes[i] % 16]
  {
    assert (2 * i) / 2 == i && (2 * i) % 2 == 0 && (2 * i + 1) / 2 == i && (2 * i + 1) % 2 == 1;
  }

  /** The value of a digit of either case. */
  function DigitValue(c: char): int {
    if c in "abcdef" then c as int - 97 + 10 else if c in "ABCDEF" then c as int - 65 + 10 else c as int - 48
  }

  predicate IsDigitOfEitherCase(c: char) {
    c in "0123456789abcdefABCDEF"
  }

  /** The text spells the bytes: two digits of either case a byte, the sixteens first. */
  ghost predicate Spells(n: nat, s: string, bytes: Bytes) {
    && |s| == 2 * n && |bytes| == n && (forall k | 0 <= k < |s| :: IsDigitOfEitherCase(s[k]))
    && forall i | 0 <= i < n :: bytes[i] as int == 16 * DigitValue(s[2 * i]) + DigitValue(s[2 * i + 1])
  }

  lemma DecodedAt(n: nat, s: string, i: nat)
    requires HexBytes(n, s).Some? && i < n
    ensures HexBytes(n, s).value[i] as int == 16 * DigitValue(s[2 * i]) + DigitValue(s[2 * i + 1])
  {
    hide IsHexDigit, IsDigitOfEitherCase, NibbleValue, DigitValue;
    DigitExactly(s[2 * i]);
    DigitExactly(s[2 * i + 1]);
  }

  lemma DecodedIsSpelled(n: nat, s: string)
    requires HexBytes(n, s).Some?
    ensures Spells(n, s, HexBytes(n, s).value)
  {
    assert IsHexText(n, s);
    hide HexBytes, IsHexDigit, IsDigitOfEitherCase, DigitValue;
    forall k | 0 <= k < |s|
      ensures IsDigitOfEitherCase(s[k])
    {
      DigitExactly(s[k]);
    }
    forall i | 0 <= i < n
      ensures HexBytes(n, s).value[i] as int == 16 * DigitValue(s[2 * i]) + DigitValue(s[2 * i + 1])
    {
      DecodedAt(n, s, i);
    }
  }

  lemma SpelledBytesUnique(n: nat, s: string, a: Bytes, b: Bytes)
    requires Spells(n, s, a) && Spells(n, s, b)
    ensures a == b
  {
    hide DigitValue, IsDigitOfEitherCase;
    forall i | 0 <= i < n
      ensures a[i] == b[i]
    {
    }
  }

  /** Decoding yields bytes exactly when the text spells them. */
  lemma HexBytesExactly(n: nat, s: string, bytes: Bytes)
    ensures HexBytes(n, s) == Some(bytes) <==> Spells(n, s, bytes)
  {
    if HexBytes(n, s).Some? {
      DecodedIsSpelled(n, s);
    }
    if Spells(n, s, bytes) {
      forall k | 0 <= k < |s|
        ensures IsHexDigit(s[k])
      {
        assert IsDigitOfEitherCase(s[k]);
        DigitExactly(s[k]);
      }
      DecodedIsSpelled(n, s);
      SpelledBytesUnique(n, s, bytes, HexBytes(n, s).value);
    }
  }

  lemma DigitExactly(c: char)
    ensures IsHexDigit(c) <==> IsDigitOfEitherCase(c)
    ensures IsHexDigit(c) ==> NibbleValue(c) == DigitValue(c)
  {
    assert c in "abcdef" <==> 'a' <= c <= 'f';
    assert c in "ABCDEF" <==> 'A' <= c <= 'F';
    assert c in "0123456789abcdefABCDEF" <==> '0' <= c <= '9' || 'a' <= c <= 'f' || 'A' <= c <= 'F';
  }
}
