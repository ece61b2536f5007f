/** Shared value types: optional results, bytes, UTF-8 text and big-endian words. */
module Base {

  datatype Option<+T> = None | Some(value: T)

  type byte = b: int | 0 <= b < 256

  type Bytes = seq<byte>

  const U64_MAX: nat := 0xFFFF_FFFF_FFFF_FFFF

  type u64 = n: int | 0 <= n <= U64_MAX

  const U32_LIMIT: nat := 0x1_0000_0000

  type u32 = n: int | 0 <= n < U32_LIMIT

  type u16 = n: int | 0 <= n < 0x1_0000

  /** `std::net::SocketAddr`, compared field by field. */
  datatype SocketAddr =
    | V4(address: u32, port: u16)
    | V6(octets: Bytes, port: u16, flowInfo: u32, scopeId: u32)

  /** Fixed-size byte arrays: exchange keys, challenges, public keys. */
  type Bytes32 = bs: Bytes | |bs| == 32 witness seq(32, _ => 0)

  /** An Ed25519 signature; its parser checks only the length. */
  type Signature = bs: Bytes | |bs| == 64 witness seq(64, _ => 0)

  // ---------- UTF-8 ----------

  /** The UTF-8 encoding of one Unicode scalar value. */
  function Utf8Char(c: char): (bs: Bytes)
    ensures 1 <= |bs| <= 4
    ensures forall b | b in bs :: b < 128 ==> bs == [c as int]
  {
    var n := c as int;
    var n6 := n / 64;
    var n12 := n6 / 64;
    var n18 := n12 / 64;
    if n < 0x80 then [n]
    else if n < 0x800 then [0xC0 + n6, 0x80 + n % 64]
    else if n < 0x1_0000 then [0xE0 + n12, 0x80 + n6 % 64, 0x80 + n % 64]
    else [0xF0 + n18, 0x80 + n12 % 64, 0x80 + n6 % 64, 0x80 + n % 64]
  }

  /** `str::as_bytes`: the bytes of a text. */
  function Utf8(s: string): Bytes {
    if s == "" then [] else Utf8Char(s[0]) + Utf8(s[1..])
  }

  predicate IsScalar(n: int) {
    0 <= n < 0xD800 || 0xE000 <= n < 0x11_0000
  }

  /** The payload of a continuation byte; `FromUtf8` re-checks that the byte is one. */
  function Tail(b: byte): int {
    b - 0x80
  }

  /** The scalar value a lead byte and its continuation bytes would denote, with its length. */
  function FirstScalar(bs: Bytes): (int, nat)
    requires bs != []
  {
    var b: int := bs[0];
    if b < 0x80 then (b, 1)
    else if 0xC0 <= b < 0xE0 && |bs| >= 2 then ((b - 0xC0) * 64 + Tail(bs[1]), 2)
    else if 0xE0 <= b < 0xF0 && |bs| >= 3 then
      ((b - 0xE0) * 4096 + Tail(bs[1]) * 64 + Tail(bs[2]), 3)
    else if 0xF0 <= b < 0xF8 && |bs| >= 4 then
      ((b - 0xF0) * 262144 + Tail(bs[1]) * 4096 + Tail(bs[2]) * 64 + Tail(bs[3]), 4)
    else (-1, 1)
  }

  /** The character whose encoding the bytes start with, if there is one. */
  function FirstChar(bs: Bytes): (r: Option<char>)
    requires bs != []
    ensures r.Some? ==> Utf8Char(r.value) <= bs
  {
    var (n, len) := FirstScalar(bs);
    if IsScalar(n) && Utf8Char(n as char) == bs[..len] then Some(n as char) else None
  }

  /** `str::from_utf8`: overlong forms, surrogates and stray bytes are refused. */
  function FromUtf8(bs: Bytes): Option<string> {
    if bs == [] then Some("")
    else
      match FirstChar(bs)
      case None => None
      case Some(c) =>
        match FromUtf8(bs[|Utf8Char(c)|..])
        case None => None
        case Some(rest) => Some([c] + rest)
  }

  lemma FirstScalarOfChar(c: char, rest: Bytes)
    ensures FirstScalar(Utf8Char(c) + rest) == (c as int, |Utf8Char(c)|)
  {
    var n, bs := c as int, Utf8Char(c);
    assert forall i | 0 <= i < |bs| :: (bs + rest)[i] == bs[i];
    var n6 := n / 64;
    var n12 := n6 / 64;
    assert n == 64 * n6 + n % 64 && n6 == 64 * n12 + n6 % 64;
    assert n12 == 64 * (n12 / 64) + n12 % 64;
  }

  lemma FirstCharOfChar(c: char, rest: Bytes)
    ensures FirstChar(Utf8Char(c) + rest) == Some(c)
  {
    FirstScalarOfChar(c, rest);
    assert (Utf8Char(c) + rest)[..|Utf8Char(c)|] == Utf8Char(c);
  }

  /** `from_utf8` accepts exactly the encodings of texts, and returns the text encoded. */
  lemma {:induction false} Utf8RoundTrip(s: string)
    ensures FromUtf8(Utf8(s)) == Some(s)
  {
    if s != "" {
      hide Utf8Char, FirstChar;
      var head := Utf8Char(s[0]);
      FirstCharOfChar(s[0], Utf8(s[1..]));
      assert (head + Utf8(s[1..]))[|head|..] == Utf8(s[1..]);
      Utf8RoundTrip(s[1..]);
      assert [s[0]] + s[1..] == s;
    }
  }

  lemma Utf8Cons(c: char, rest: string)
    ensures Utf8([c] + rest) == Utf8Char(c) + Utf8(rest)
  {
    hide Utf8Char;
    assert ([c] + rest)[1..] == rest;
  }

  lemma PrefixSplits(u: Bytes, bs: Bytes)
    requires u <= bs
    ensures u + bs[|u|..] == bs
  {
  }

  lemma {:induction false} FromUtf8Sound(bs: Bytes)
    requires FromUtf8(bs).Some?
    ensures Utf8(FromUtf8(bs).value) == bs
    decreases |bs|
  {
    if bs != [] {
      hide Utf8Char, FirstChar;
      var c := FirstChar(bs).value;
      var tail := bs[|Utf8Char(c)|..];
      FromUtf8Sound(tail);
      var rest := FromUtf8(tail).value;
      hide FromUtf8;
      Utf8Cons(c, rest);
      PrefixSplits(Utf8Char(c), bs);
    }
  }

  /** Decoding succeeds exactly on encodings, with the text encoded. */
  lemma FromUtf8Exactly(bs: Bytes, s: string)
    ensures FromUtf8(bs) == Some(s) <==> Utf8(s) == bs
  {
    if FromUtf8(bs).Some? {
      FromUtf8Sound(bs);
    }
    Utf8RoundTrip(s);
  }

  /** Byte `i` as a number that calculations may exceed. */
  function At(bs: Bytes, i: nat): int
    requires i < |bs|
  {
    bs[i]
  }

  predicate IsContinuation(b: byte) {
    0x80 <= b < 0xC0
  }

  /** The table of section 3 of RFC 3629: the length by range, the lead byte, and the payload bits. */
  ghost predicate StandardUtf8(n: int, bs: Bytes) {
    if n < 0x80 then |bs| == 1 && n == At(bs, 0)
    else if n < 0x800 then
      |bs| == 2 && IsContinuation(bs[1]) && n == 64 * (At(bs, 0) - 0xC0) + (At(bs, 1) - 0x80)
    else if n < 0x1_0000 then
      && |bs| == 3 && IsContinuation(bs[1]) && IsContinuation(bs[2])
      && n == 4096 * (At(bs, 0) - 0xE0) + 64 * (At(bs, 1) - 0x80) + (At(bs, 2) - 0x80)
    else
      && |bs| == 4 && IsContinuation(bs[1]) && IsContinuation(bs[2]) && IsContinuation(bs[3])
      && n == 262144 * (At(bs, 0) - 0xF0) + 4096 * (At(bs, 1) - 0x80) + 64 * (At(bs, 2) - 0x80) + (At(bs, 3) - 0x80)
  }

  lemma Utf8CharStandard(c: char)
    ensures StandardUtf8(c as int, Utf8Char(c))
  {
    var n := c as int;
    var n6 := n / 64;
    var n12 := n6 / 64;
    assert n == 64 * n6 + n % 64 && n6 == 64 * n12 + n6 % 64 && n12 == 64 * (n12 / 64) + n12 % 64;
  }

  lemma Utf8Injective(s: string, t: string)
    requires Utf8(s) == Utf8(t)
    ensures s == t
  {
    Utf8RoundTrip(s);
    Utf8RoundTrip(t);
  }

  lemma {:induction false} Utf8Concat(s: string, t: string)
    ensures Utf8(s + t) == Utf8(s) + Utf8(t)
  {
    if s == "" {
      assert s + t == t;
    } else {
      assert (s + t)[1..] == s[1..] + t;
      Utf8Concat(s[1..], t);
    }
  }

  predicate IsAscii(s: string) {
    forall i | 0 <= i < |s| :: s[i] < 128 as char
  }

  /** One byte a character. */
  function Ascii(s: string): Bytes
    requires IsAscii(s)
  {
    seq(|s|, i requires 0 <= i < |s| => s[i] as int)
  }

  lemma {:induction false} Utf8OfAscii(s: string)
    requires IsAscii(s)
    ensures Utf8(s) == Ascii(s)
  {
    if s != "" {
      Utf8OfAscii(s[1..]);
      assert Ascii(s) == [s[0] as int] + Ascii(s[1..]);
    }
  }

  lemma {:induction false} Utf8LengthOfAscii(s: string)
    requires IsAscii(s)
    ensures |Utf8(s)| == |s|
  {
    if s != "" {
      Utf8LengthOfAscii(s[1..]);
    }
  }

  lemma {:induction false} Utf8LengthBound(s: string)
    ensures |Utf8(s)| <= 4 * |s|
  {
    if s != "" {
      Utf8LengthBound(s[1..]);
    }
  }

  /** An ASCII byte occurs in an encoded text only where its character does. */
  lemma {:induction false} Utf8AsciiByte(s: string, c: char)
    requires c < 128 as char && c !in s
    ensures c as int !in Utf8(s)
  {
    if s != "" {
      Utf8AsciiByte(s[1..], c);
      assert s[0] in s;
    }
  }

  // ---------- Big-endian words ----------

  /** `u64::to_be_bytes`, written for any width. */
  function BigEndian(n: nat, width: nat): (bs: Bytes)
    ensures |bs| == width
  {
    if width == 0 then [] else BigEndian(n / 256, width - 1) + [n % 256]
  }

  /** `u64::from_be_bytes`. */
  function FromBigEndian(bs: Bytes): nat {
    if bs == [] then 0 else 256 * FromBigEndian(bs[..|bs| - 1]) + bs[|bs| - 1]
  }

  function Pow256(width: nat): nat {
    if width == 0 then 1 else 256 * Pow256(width - 1)
  }

  lemma {:induction false} BigEndianRoundTrip(n: nat, width: nat)
    requires n < Pow256(width)
    ensures FromBigEndian(BigEndian(n, width)) == n
  {
    if width > 0 {
      BigEndianRoundTrip(n / 256, width - 1);
      var bs := BigEndian(n, width);
      assert bs[..width - 1] == BigEndian(n / 256, width - 1);
    }
  }

  lemma {:induction false} FromBigEndianRange(bs: Bytes)
    ensures FromBigEndian(bs) < Pow256(|bs|)
    ensures BigEndian(FromBigEndian(bs), |bs|) == bs
  {
    if bs != [] {
      var init, last := bs[..|bs| - 1], bs[|bs| - 1];
      FromBigEndianRange(init);
      var n := FromBigEndian(bs);
      assert n / 256 == FromBigEndian(init) && n % 256 == last;
      assert init + [last] == bs;
    }
  }

  lemma U64Pow()
    ensures Pow256(8) == U64_MAX + 1
  {
    assert Pow256(4) == 0x1_0000_0000;
    assert Pow256(8) == 256 * 256 * 256 * 256 * Pow256(4);
  }

  /** Eight bytes are read most significant first. */
  lemma FromBigEndianOfEight(bs: Bytes)
    requires |bs| == 8
    ensures FromBigEndian(bs) ==
            bs[7] + 256 * At(bs, 6) + 65_536 * At(bs, 5) + 16_777_216 * At(bs, 4) + 4_294_967_296 * At(bs, 3)
            + 1_099_511_627_776 * At(bs, 2) + 281_474_976_710_656 * At(bs, 1) + 72_057_594_037_927_936 * At(bs, 0)
  {
    FromBigEndianOfFour(bs[..4]);
    var b5, b6, b7 := bs[..5], bs[..6], bs[..7];
    assert bs[..7][..6] == b6 && b6[..5] == b5 && b5[..4] == bs[..4];
    assert FromBigEndian(b5) == 256 * FromBigEndian(bs[..4]) + bs[4];
    assert FromBigEndian(b6) == 256 * FromBigEndian(b5) + bs[5];
    assert FromBigEndian(b7) == 256 * FromBigEndian(b6) + bs[6];
    assert FromBigEndian(bs) == 256 * FromBigEndian(b7) + bs[7];
  }

  lemma FromBigEndianOfFour(bs: Bytes)
    requires |bs| == 4
    ensures FromBigEndian(bs) == bs[3] + 256 * At(bs, 2) + 65_536 * At(bs, 1) + 16_777_216 * At(bs, 0)
  {
    var b1, b2, b3 := bs[..1], bs[..2], bs[..3];
    assert b3[..2] == b2 && b2[..1] == b1 && b1[..0] == [];
    assert FromBigEndian(b1) == bs[0];
    assert FromBigEndian(b2) == 256 * FromBigEndian(b1) + bs[1];
    assert FromBigEndian(b3) == 256 * FromBigEndian(b2) + bs[2];
    assert FromBigEndian(bs) == 256 * FromBigEndian(b3) + bs[3];
  }
}
