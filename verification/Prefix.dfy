/** IPv4 prefixes: bit masks, the intervals they denote, and their text form (src/routing.rs). */
module Prefix {
  import opened Base
  import opened Text

  /** `u32::from(Ipv4Addr)`. */
  type Address = u32

  const ADDRESSES: nat := U32_LIMIT

  datatype RawPrefix = RawPrefix(network: Address, length: nat)

  /** The only prefixes `from_str` builds, hence the only ones that exist: no host bits. */
  type Ipv4Prefix = p: RawPrefix | Canonical(p) witness RawPrefix(0, 0)

  function Pow2(k: nat): (p: nat)
    ensures p > 0
  {
    if k == 0 then 1 else 2 * Pow2(k - 1)
  }

  /** Bitwise `&`. */
  function And(a: nat, b: nat): nat {
    if a == 0 || b == 0 then 0
    else 2 * And(a / 2, b / 2) + (if a % 2 == 1 && b % 2 == 1 then 1 else 0)
  }

  /** `u32 << shift`: bits shifted past the top are lost. */
  function ShiftLeft(a: Address, shift: nat): Address
    requires shift < 32
  {
    (a * Pow2(shift)) % ADDRESSES
  }

  /** `prefix_mask`. */
  function PrefixMask(length: nat): Address
    requires length <= 32
  {
    if length == 0 then 0 else ShiftLeft(ADDRESSES - 1, 32 - length)
  }

  predicate Canonical(p: RawPrefix) {
    p.length <= 32 && And(p.network, PrefixMask(p.length)) == p.network
  }

  /** `Ipv4Prefix::contains`. */
  predicate Contains(p: Ipv4Prefix, address: Address) {
    And(address, PrefixMask(p.length)) == p.network
  }

  /** How many addresses a prefix covers. */
  function Size(p: RawPrefix): (n: nat)
    requires p.length <= 32
    ensures n > 0
  {
    Pow2(32 - p.length)
  }

  // ---------- Masks and intervals ----------

  lemma Pow2Of32()
    ensures Pow2(32) == ADDRESSES
  {
    assert Pow2(8) == 256;
    assert Pow2(16) == 256 * Pow2(8);
    assert Pow2(24) == 256 * Pow2(16);
    assert Pow2(32) == 256 * Pow2(24);
  }

  lemma {:induction false} Pow2Monotone(j: nat, k: nat)
    requires j <= k
    ensures Pow2(j) <= Pow2(k)
  {
    if j < k {
      Pow2Monotone(j, k - 1);
    }
  }

  lemma ShiftOfOnes(p: int, n: int)
    requires 0 < p <= n
    ensures ((n - 1) * p) % n == n - p
  {
    assert (n - 1) * p == n * (p - 1) + (n - p);
    DivModUnique((n - 1) * p, n, p - 1, n - p);
  }

  lemma QuotientsAgree(n: int, q: int, r: int, q': int, r': int)
    requires 0 <= r < n && 0 <= r' < n
    requires n * q + r == n * q' + r'
    ensures q == q' && r == r'
  {
    var d := q' - q;
    assert n * d == r - r' by {
      assert n * d == n * q' - n * q;
    }
    ScaleGrows(n, d);
  }

  lemma ScaleGrows(n: int, d: int)
    requires n > 0
    ensures d >= 1 ==> n * d >= n
    ensures d <= -1 ==> n * d <= -n
  {
  }

  lemma DivModUnique(x: int, n: int, q: int, r: int)
    requires n > 0 && x == n * q + r && 0 <= r < n
    ensures x / n == q && x % n == r
  {
    QuotientsAgree(n, q, r, x / n, x % n);
  }

  /** `x` rounded down to a multiple of `n`. */
  function RoundDown(x: nat, n: nat): nat
    requires n > 0
  {
    x - x % n
  }

  /** Rounding down to a multiple of `n` lands on block `b` exactly from within the block. */
  lemma BlockOf(x: nat, b: nat, n: nat)
    requires n > 0 && b % n == 0
    ensures RoundDown(x, n) == b <==> b <= x < b + n
  {
    if b <= x < b + n {
      DivModUnique(x, n, b / n, x - b);
    }
  }

  lemma MaskValue(length: nat)
    requires length <= 32
    ensures PrefixMask(length) == ADDRESSES - Pow2(32 - length)
  {
    Pow2Of32();
    if length > 0 {
      Pow2Monotone(32 - length, 32);
      ShiftOfOnes(Pow2(32 - length), ADDRESSES);
    }
  }

  lemma RoundHalves(a: nat, p: nat)
    requires p > 0
    ensures RoundDown(a, 2 * p) == 2 * RoundDown(a / 2, p)
  {
    var h := a / 2;
    assert h == p * (h / p) + h % p;
    assert a == (2 * p) * (h / p) + (2 * (h % p) + a % 2) by {
      assert 2 * (p * (h / p)) == (2 * p) * (h / p);
    }
    DivModUnique(a, 2 * p, h / p, 2 * (h % p) + a % 2);
  }

  lemma {:induction false} AndAllOnes(a: nat, w: nat)
    requires a < Pow2(w)
    ensures And(a, Pow2(w) - 1) == a
  {
    if a > 0 {
      var m, half := Pow2(w) - 1, Pow2(w - 1);
      AndAllOnes(a / 2, w - 1);
      assert m == 2 * (half - 1) + 1;
    }
  }

  /** Clearing the low `k` bits of a `w`-bit number rounds it down to a multiple of `2^k`. */
  lemma {:induction false} AndOnesMask(a: nat, w: nat, k: nat)
    requires k <= w && a < Pow2(w)
    ensures Pow2(k) <= Pow2(w)
    ensures And(a, Pow2(w) - Pow2(k)) == RoundDown(a, Pow2(k))
  {
    hide RoundDown, And;
    Pow2Monotone(k, w);
    if k == 0 {
      AndAllOnes(a, w);
      RoundByOne(a);
    } else {
      AndOnesMask(a / 2, w - 1, k - 1);
      AndStep(a, Pow2(w - 1), Pow2(k - 1));
    }
  }

  lemma RoundByOne(a: nat)
    ensures RoundDown(a, 1) == a
  {
  }

  lemma AndStep(a: nat, big: nat, small: nat)
    requires 0 < small <= big && And(a / 2, big - small) == RoundDown(a / 2, small)
    ensures And(a, 2 * big - 2 * small) == RoundDown(a, 2 * small)
  {
    hide RoundDown, And;
    RoundHalves(a, small);
    AndEven(a, big - small);
    assert 2 * big - 2 * small == 2 * (big - small);
  }

  lemma AndEven(a: nat, b: nat)
    ensures And(a, 2 * b) == 2 * And(a / 2, b)
  {
    hide And;
    AndOfHalves(a / 2, a % 2, b);
    assert a == 2 * (a / 2) + a % 2;
  }

  lemma AndOfHalves(x: nat, bit: nat, y: nat)
    requires bit < 2
    ensures And(2 * x + bit, 2 * y) == 2 * And(x, y)
  {
    assert (2 * x + bit) / 2 == x && (2 * y) / 2 == y && (2 * y) % 2 == 0;
  }

  /** A masked address is the address rounded down to the size of the prefix. */
  lemma MaskRoundsDown(address: Address, length: nat)
    requires length <= 32
    ensures And(address, PrefixMask(length)) == RoundDown(address, Pow2(32 - length))
  {
    hide PrefixMask, And, RoundDown, Pow2;
    MaskValue(length);
    Pow2Of32();
    AndOnesMask(address, 32, 32 - length);
  }

  lemma CanonicalIsMultiple(p: RawPrefix)
    requires p.length <= 32
    ensures Canonical(p) <==> p.network % Size(p) == 0
  {
    MaskRoundsDown(p.network, p.length);
  }

  /** Mask membership is membership in `[network, network + 2^(32-length))`. */
  lemma ContainsIsInterval(p: Ipv4Prefix, address: Address)
    ensures Contains(p, address) <==> p.network <= address < p.network + Size(p)
  {
    CanonicalIsMultiple(p);
    MaskRoundsDown(address, p.length);
    BlockOf(address, p.network, Size(p));
  }

  /** `a` is a subset of `b`. */
  ghost predicate Within(a: Ipv4Prefix, b: Ipv4Prefix) {
    forall x: Address :: Contains(a, x) ==> Contains(b, x)
  }

  ghost predicate Overlap(a: Ipv4Prefix, b: Ipv4Prefix) {
    exists x: Address :: Contains(a, x) && Contains(b, x)
  }

  lemma {:induction false} Pow2Divides(j: nat, k: nat)
    requires j <= k
    ensures Pow2(k) == Pow2(j) * Pow2(k - j)
    decreases k - j
  {
    if j < k {
      Pow2Divides(j, k - 1);
      assert Pow2(j) * (2 * Pow2(k - 1 - j)) == 2 * (Pow2(j) * Pow2(k - 1 - j));
    }
  }

  lemma ModMod(x: nat, a: nat, b: nat)
    requires a > 0 && b > 0
    ensures x % (a * b) % a == x % a
  {
    var q, r := x / (a * b), x % (a * b);
    assert a * b > 0;
    assert x == (a * b) * q + r;
    assert (a * b) * q == a * (b * q);
    assert r == a * (r / a) + r % a;
    assert x == a * (b * q + r / a) + r % a by {
      assert a * (b * q + r / a) == a * (b * q) + a * (r / a);
    }
    DivModUnique(x, a, b * q + r / a, r % a);
  }

  /** Any two canonical prefixes are nested, the longer within the shorter, or disjoint. */
  lemma NestedOrDisjoint(p: Ipv4Prefix, q: Ipv4Prefix)
    requires q.length <= p.length
    ensures Within(p, q) <==> Overlap(p, q)
  {
    var x := p.network;
    assert Contains(p, x);
    if Overlap(p, q) {
      var y: Address :| Contains(p, y) && Contains(q, y);
      forall z: Address | Contains(p, z)
        ensures Contains(q, z)
      {
        SameBlock(p, q, y, z);
      }
    }
  }

  /** Addresses that agree on the long prefix agree on the short one. */
  lemma SameBlock(p: Ipv4Prefix, q: Ipv4Prefix, y: Address, z: Address)
    requires q.length <= p.length
    requires Contains(p, y) && Contains(p, z)
    ensures Contains(q, y) <==> Contains(q, z)
  {
    var a, k := Size(p), 32 - q.length;
    Pow2Divides(32 - p.length, k);
    var b := Pow2(k - (32 - p.length));
    MaskRoundsDown(y, p.length);
    MaskRoundsDown(z, p.length);
    MaskRoundsDown(y, q.length);
    MaskRoundsDown(z, q.length);
    hide RoundDown, Pow2, And, PrefixMask, Canonical;
    RoundTwice(y, a, b);
    RoundTwice(z, a, b);
  }

  /** Rounding down to a multiple of `a * b` depends only on the rounding down to a multiple of `a`. */
  lemma RoundTwice(x: nat, a: nat, b: nat)
    requires a > 0 && b > 0
    ensures a * b > 0
    ensures RoundDown(x, a * b) == RoundDown(RoundDown(x, a), a * b)
  {
    assert a * b > 0;
    ModMod(x, a, b);
    RoundWithin(x, a * b, x / (a * b), x % (a * b), x % a);
  }

  lemma RoundWithin(x: nat, n: nat, q: nat, m: nat, t: nat)
    requires n > 0 && x == n * q + m && m < n && t <= m
    ensures var r := x - t; r - r % n == x - m
  {
    DivModUnique(x - t, n, q, m - t);
  }

  /** Equally long prefixes that share an address are the same prefix. */
  lemma SameLengthSameAddress(p: Ipv4Prefix, q: Ipv4Prefix, address: Address)
    requires p.length == q.length
    requires Contains(p, address) && Contains(q, address)
    ensures p == q
  {
  }

  // ---------- Text form ----------

  /** `str::split(separator)`. */
  function SplitOn(s: string, separator: char): (parts: seq<string>)
    ensures parts != []
  {
    if s == "" then [""]
    else
      var rest := SplitOn(s[1..], separator);
      if s[0] == separator then [""] + rest else [[s[0]] + rest[0]] + rest[1..]
  }

  /** `str::split_once(separator)`. */
  function SplitOnce(s: string, separator: char): Option<(string, string)> {
    if s == "" then None
    else if s[0] == separator then Some(("", s[1..]))
    else
      match SplitOnce(s[1..], separator)
      case None => None
      case Some((before, after)) => Some(([s[0]] + before, after))
  }

  /** One octet of a dotted quad: one to three digits, no leading zero, at most 255. */
  function ParseOctet(s: string): (r: Option<nat>)
    ensures r.Some? ==> r.value < 256
  {
    if 1 <= |s| <= 3 && AllDigits(s) && (|s| == 1 || s[0] != '0') && DigitsValue(s) < 256
    then Some(DigitsValue(s)) else None
  }

  /** `Ipv4Addr::from_str`. */
  function ParseAddress(s: string): Option<Address> {
    var parts := SplitOn(s, '.');
    if |parts| != 4 then None
    else
      match (ParseOctet(parts[0]), ParseOctet(parts[1]), ParseOctet(parts[2]), ParseOctet(parts[3]))
      case (Some(a), Some(b), Some(c), Some(d)) => Some(((a * 256 + b) * 256 + c) * 256 + d)
      case _ => None
  }

  /** `Ipv4Addr::octets`, most significant first. */
  function Octets(address: Address): (o: (nat, nat, nat, nat))
    ensures o.0 < 256 && o.1 < 256 && o.2 < 256 && o.3 < 256
    ensures address == ((o.0 * 256 + o.1) * 256 + o.2) * 256 + o.3
  {
    var high24 := address / 256;
    var high16 := high24 / 256;
    (high16 / 256, high16 % 256, high24 % 256, address % 256)
  }

  /** `Display` of `Ipv4Addr`. */
  function PrintAddress(address: Address): string {
    var (a, b, c, d) := Octets(address);
    Decimal(a) + "." + (Decimal(b) + "." + (Decimal(c) + "." + Decimal(d)))
  }

  /** `Ipv4Prefix::from_str`. */
  function ParsePrefix(s: string): Option<Ipv4Prefix> {
    match SplitOnce(s, '/')
    case None => None
    case Some((addressText, lengthText)) =>
      match (ParseAddress(addressText), ParseUnsigned(lengthText, 255))
      case (Some(address), Some(length)) =>
        if length > 32 || And(address, PrefixMask(length)) != address then None
        else Some(RawPrefix(address, length))
      case _ => None
  }

  /** `Display` of `Ipv4Prefix`. */
  function PrintPrefix(p: Ipv4Prefix): string {
    PrintAddress(p.network) + "/" + Decimal(p.length)
  }

  lemma {:induction false} SplitOnFirst(head: string, rest: string, separator: char)
    requires separator !in head
    ensures SplitOn(head + [separator] + rest, separator) == [head] + SplitOn(rest, separator)
  {
    var s := head + [separator] + rest;
    if head == "" {
      assert s[1..] == rest;
    } else {
      assert s[1..] == head[1..] + [separator] + rest;
      SplitOnFirst(head[1..], rest, separator);
      assert head == [head[0]] + head[1..];
    }
  }

  lemma {:induction false} SplitOnLast(s: string, separator: char)
    requires separator !in s
    ensures SplitOn(s, separator) == [s]
  {
    if s != "" {
      SplitOnLast(s[1..], separator);
      assert s == [s[0]] + s[1..];
    }
  }

  lemma {:induction false} SplitOnceAt(before: string, after: string, separator: char)
    requires separator !in before
    ensures SplitOnce(before + [separator] + after, separator) == Some((before, after))
  {
    var s := before + [separator] + after;
    if before == "" {
      assert s[1..] == after;
    } else {
      assert s[1..] == before[1..] + [separator] + after;
      SplitOnceAt(before[1..], after, separator);
      assert before == [before[0]] + before[1..];
    }
  }

  lemma OctetRoundTrip(n: nat)
    requires n < 256
    ensures ParseOctet(Decimal(n)) == Some(n)
    ensures '.' !in Decimal(n) && '/' !in Decimal(n)
  {
    DecimalValue(n);
    DecimalHasNoLeadingZero(n);
    DecimalLength(n, 3, 1000);
  }

  lemma AddressRoundTrip(address: Address)
    ensures ParseAddress(PrintAddress(address)) == Some(address)
    ensures '/' !in PrintAddress(address)
  {
    var (a, b, c, d) := Octets(address);
    OctetRoundTrip(a);
    OctetRoundTrip(b);
    OctetRoundTrip(c);
    OctetRoundTrip(d);
    SplitOfQuad(Decimal(a), Decimal(b), Decimal(c), Decimal(d));
  }

  lemma SplitOfQuad(a: string, b: string, c: string, d: string)
    requires '.' !in a && '.' !in b && '.' !in c && '.' !in d
    ensures SplitOn(a + "." + (b + "." + (c + "." + d)), '.') == [a, b, c, d]
  {
    SplitOnFirst(a, b + "." + (c + "." + d), '.');
    SplitOnFirst(b, c + "." + d, '.');
    SplitOnFirst(c, d, '.');
    SplitOnLast(d, '.');
  }

  /** Parsing a printed canonical prefix returns it. */
  lemma {:induction false} PrefixRoundTrip(p: Ipv4Prefix)
    ensures ParsePrefix(PrintPrefix(p)) == Some(p)
  {
    AddressRoundTrip(p.network);
    DecimalRoundTrip(p.length, 255);
    SplitOnceAt(PrintAddress(p.network), Decimal(p.length), '/');
  }

  /** Every accepted text names a prefix without host bits; printing it gives a stable form. */
  lemma ParsePrefixIsCanonical(s: string)
    requires ParsePrefix(s).Some?
    ensures var p := ParsePrefix(s).value;
            && p.length <= 32 && p.network % Size(p) == 0
            && ParsePrefix(PrintPrefix(p)) == Some(p)
  {
    var p := ParsePrefix(s).value;
    CanonicalIsMultiple(p);
    PrefixRoundTrip(p);
  }

  // ---------- Exactly which texts are accepted ----------

  /** Four numbers below 256 in plain decimal, joined by dots, the first the most significant. */
  ghost predicate DottedQuad(s: string, address: int) {
    exists a: nat, b: nat, c: nat, d: nat :: QuadOf(s, address, a, b, c, d)
  }

  ghost predicate QuadOf(s: string, address: int, a: nat, b: nat, c: nat, d: nat) {
    && a < 256 && b < 256 && c < 256 && d < 256
    && s == Decimal(a) + "." + (Decimal(b) + "." + (Decimal(c) + "." + Decimal(d)))
    && address == 16_777_216 * a + 65_536 * b + 256 * c + d
  }

  lemma QuadParses(s: string, address: Address, a: nat, b: nat, c: nat, d: nat)
    requires QuadOf(s, address, a, b, c, d)
    ensures ParseAddress(s) == Some(address)
    ensures '/' !in s
  {
    hide ParseOctet, SplitOn, Decimal;
    OctetRoundTrip(a);
    OctetRoundTrip(b);
    OctetRoundTrip(c);
    OctetRoundTrip(d);
    SplitOfQuad(Decimal(a), Decimal(b), Decimal(c), Decimal(d));
  }

  lemma ParseOctetExactly(s: string, n: nat)
    ensures ParseOctet(s) == Some(n) <==> n < 256 && s == Decimal(n)
  {
    if ParseOctet(s) == Some(n) {
      var zeros := DigitsAreDecimal(s);
      assert Zeros(0) + Decimal(n) == Decimal(n);
    }
    if n < 256 {
      OctetRoundTrip(n);
    }
  }

  function Joined(parts: seq<string>, separator: char): string
    requires parts != []
  {
    if |parts| == 1 then parts[0] else parts[0] + [separator] + Joined(parts[1..], separator)
  }

  lemma {:induction false} JoinUndoesSplit(s: string, separator: char)
    ensures Joined(SplitOn(s, separator), separator) == s
  {
    if s != "" {
      var rest := SplitOn(s[1..], separator);
      JoinUndoesSplit(s[1..], separator);
      var parts := SplitOn(s, separator);
      if s[0] == separator {
        assert parts[1..] == rest;
      } else {
        assert parts[0] == [s[0]] + rest[0] && parts[1..] == rest[1..];
      }
    }
  }

  lemma JoinOfFour(a: string, b: string, c: string, d: string)
    ensures Joined([a, b, c, d], '.') == a + "." + (b + "." + (c + "." + d))
  {
    assert [a, b, c, d][1..] == [b, c, d] && [b, c, d][1..] == [c, d] && [c, d][1..] == [d] && ['.'] == ".";
    assert Joined([c, d], '.') == c + "." + d;
    assert Joined([b, c, d], '.') == b + "." + (c + "." + d);
  }

  /** An address text is accepted exactly when it is a dotted quad, as the number it denotes. */
  lemma ParseAddressExactly(s: string, address: Address)
    ensures ParseAddress(s) == Some(address) <==> DottedQuad(s, address)
  {
    hide ParseAddress, QuadOf;
    if ParseAddress(s) == Some(address) {
      QuadOfParsed(s, address);
    }
    if a: nat, b: nat, c: nat, d: nat :| QuadOf(s, address, a, b, c, d) {
      QuadParses(s, address, a, b, c, d);
    }
  }

  lemma QuadOfParsed(s: string, address: Address)
    requires ParseAddress(s) == Some(address)
    ensures DottedQuad(s, address)
  {
    hide ParseOctet, SplitOn, Joined, Decimal;
    var parts := SplitOn(s, '.');
    var a, b := ParseOctet(parts[0]).value, ParseOctet(parts[1]).value;
    var c, d := ParseOctet(parts[2]).value, ParseOctet(parts[3]).value;
    ParseOctetExactly(parts[0], a);
    ParseOctetExactly(parts[1], b);
    ParseOctetExactly(parts[2], c);
    ParseOctetExactly(parts[3], d);
    JoinUndoesSplit(s, '.');
    assert parts == [parts[0], parts[1], parts[2], parts[3]];
    JoinOfFour(parts[0], parts[1], parts[2], parts[3]);
    assert ((a * 256 + b) * 256 + c) * 256 + d == 16_777_216 * a + 65_536 * b + 256 * c + d;
    assert QuadOf(s, address, a, b, c, d);
  }

  lemma {:induction false} SplitOnceJoins(s: string, separator: char)
    ensures SplitOnce(s, separator).Some? ==>
              var (before, after) := SplitOnce(s, separator).value; s == before + [separator] + after
  {
    if s != "" && s[0] != separator {
      SplitOnceJoins(s[1..], separator);
    }
  }

  /** A dotted quad, a slash and a length of at most 32, with no address bit set beyond the length. */
  ghost predicate SpellsPrefix(s: string, address: int, length: nat) {
    exists quad, number ::
      && s == quad + "/" + number && DottedQuad(quad, address) && SpellsNumber(number, length)
      && length <= 32 && address % Pow2(32 - length) == 0
  }

  /** A prefix text is accepted exactly when it spells that prefix; host bits are refused, not masked. */
  lemma ParsePrefixExactly(s: string, p: Ipv4Prefix)
    ensures ParsePrefix(s) == Some(p) <==> SpellsPrefix(s, p.network, p.length)
  {
    hide ParseAddress, ParseUnsigned, QuadOf, SpellsNumber, PrefixMask, And, Pow2;
    CanonicalIsMultiple(p);
    if ParsePrefix(s) == Some(p) {
      SplitOnceJoins(s, '/');
      var (quad, number) := SplitOnce(s, '/').value;
      ParseAddressExactly(quad, p.network);
      ParseUnsignedExactly(number, 255, p.length);
    }
    if SpellsPrefix(s, p.network, p.length) {
      var quad, number :|
        && s == quad + "/" + number && DottedQuad(quad, p.network) && SpellsNumber(number, p.length)
        && p.length <= 32 && p.network % Pow2(32 - p.length) == 0;
      ParseAddressExactly(quad, p.network);
      ParseUnsignedExactly(number, 255, p.length);
      var a: nat, b: nat, c: nat, d: nat :| QuadOf(quad, p.network, a, b, c, d);
      QuadParses(quad, p.network, a, b, c, d);
      SplitOnceAt(quad, number, '/');
    }
  }
}
