/** Text grammar shared by every message: fields, lines, decimal numbers and node IDs. */
module Text {
  import opened Base

  const MAX_NODE_ID_BYTES: nat := 64

  // ---------- Whitespace-separated fields ----------

  /** `u8::is_ascii_whitespace`. */
  predicate IsAsciiSpace(c: char) {
    c == ' ' || c == '\t' || c == '\n' || c == '\r' || c as int == 0x0C
  }

  predicate IsWord(w: string) {
    w != "" && forall i | 0 <= i < |w| :: !IsAsciiSpace(w[i])
  }

  /** Length of the leading run of characters that are not whitespace. */
  function WordLength(s: string): (n: nat)
    ensures n <= |s|
    ensures forall i | 0 <= i < n :: !IsAsciiSpace(s[i])
    ensures n < |s| ==> IsAsciiSpace(s[n])
  {
    if s == "" || IsAsciiSpace(s[0]) then 0 else 1 + WordLength(s[1..])
  }

  /** `str::split_ascii_whitespace().collect()`. */
  function Fields(s: string): (fs: seq<string>)
    ensures forall f | f in fs :: IsWord(f)
    decreases |s|
  {
    if s == "" then []
    else if IsAsciiSpace(s[0]) then Fields(s[1..])
    else
      var n := WordLength(s);
      [s[..n]] + Fields(s[n..])
  }

  /** Fields joined by single spaces, as `format!("{} {}")` writes them. */
  function Spaced(fields: seq<string>): string {
    if fields == [] then ""
    else if |fields| == 1 then fields[0]
    else fields[0] + " " + Spaced(fields[1..])
  }

  lemma {:induction false} WordLengthOfWord(w: string, rest: string)
    requires forall i | 0 <= i < |w| :: !IsAsciiSpace(w[i])
    requires rest == "" || IsAsciiSpace(rest[0])
    ensures WordLength(w + rest) == |w|
  {
    if w == "" {
      assert w + rest == rest;
    } else {
      assert (w + rest)[1..] == w[1..] + rest;
      WordLengthOfWord(w[1..], rest);
    }
  }

  lemma FieldsOfWord(w: string, rest: string)
    requires IsWord(w)
    requires rest == "" || IsAsciiSpace(rest[0])
    ensures Fields(w + rest) == [w] + Fields(rest)
  {
    WordLengthOfWord(w, rest);
    assert (w + rest)[0] == w[0];
    assert (w + rest)[..|w|] == w && (w + rest)[|w|..] == rest;
  }

  /** Splitting undoes joining. */
  lemma {:induction false} FieldsOfSpaced(fields: seq<string>)
    requires forall f | f in fields :: IsWord(f)
    ensures Fields(Spaced(fields)) == fields
  {
    if |fields| == 1 {
      FieldsOfWord(fields[0], "");
      assert fields[0] + "" == fields[0];
      assert fields == [fields[0]];
    } else if fields != [] {
      var tail := Spaced(fields[1..]);
      FieldsOfWord(fields[0], " " + tail);
      assert fields[0] + " " + tail == fields[0] + (" " + tail);
      assert (" " + tail)[1..] == tail;
      FieldsOfSpaced(fields[1..]);
      assert fields == [fields[0]] + fields[1..];
    }
  }

  // ---------- What splitting means ----------

  /** A run of the five ASCII whitespace characters: tab, newline, form feed, carriage return, space. */
  predicate IsGap(s: string) {
    forall i | 0 <= i < |s| :: s[i] as int in {0x09, 0x0A, 0x0C, 0x0D, 0x20}
  }

  /** A nonempty run of other characters. */
  predicate IsToken(w: string) {
    w != "" && forall i | 0 <= i < |w| :: w[i] as int !in {0x09, 0x0A, 0x0C, 0x0D, 0x20}
  }

  /** Gaps and words in turn, beginning and ending with a gap. */
  function Woven(gaps: seq<string>, words: seq<string>): string
    requires |gaps| == |words| + 1
  {
    if words == [] then gaps[0] else gaps[0] + (words[0] + Woven(gaps[1..], words[1..]))
  }

  /** Whitespace around and between the words, at least one character of it between any two. */
  ghost predicate AreGaps(gaps: seq<string>, words: seq<string>) {
    && |gaps| == |words| + 1
    && (forall i | 0 <= i < |gaps| :: IsGap(gaps[i]))
    && (forall i | 0 < i < |words| :: gaps[i] != "")
    && (forall i | 0 <= i < |words| :: IsToken(words[i]))
  }

  /** The text consists of these words and of whitespace. */
  ghost predicate SplitsInto(s: string, words: seq<string>) {
    exists gaps :: AreGaps(gaps, words) && s == Woven(gaps, words)
  }

  lemma {:induction false} SkipGap(gap: string, rest: string)
    requires IsGap(gap)
    ensures Fields(gap + rest) == Fields(rest)
  {
    if gap == "" {
      assert gap + rest == rest;
    } else {
      assert (gap + rest)[1..] == gap[1..] + rest;
      SkipGap(gap[1..], rest);
    }
  }

  lemma {:induction false} FieldsOfWoven(gaps: seq<string>, words: seq<string>)
    requires AreGaps(gaps, words)
    ensures Fields(Woven(gaps, words)) == words
  {
    if words == [] {
      SkipGap(gaps[0], "");
      assert gaps[0] + "" == gaps[0];
    } else {
      var gaps', words' := gaps[1..], words[1..];
      var rest := Woven(gaps', words');
      assert forall i | 0 <= i < |words'| :: words'[i] == words[i + 1];
      assert forall i | 0 <= i < |gaps'| :: gaps'[i] == gaps[i + 1];
      SkipGap(gaps[0], words[0] + rest);
      WovenStart(gaps', words');
      FieldsOfWord(words[0], rest);
      FieldsOfWoven(gaps', words');
      assert words == [words[0]] + words';
    }
  }

  /** What follows a word is empty or begins with whitespace. */
  lemma WovenStart(gaps: seq<string>, words: seq<string>)
    requires |gaps| == |words| + 1 && IsGap(gaps[0]) && (words != [] ==> gaps[0] != "")
    ensures var rest := Woven(gaps, words); rest == "" || IsAsciiSpace(rest[0])
  {
    if gaps[0] != "" {
      assert Woven(gaps, words)[0] == gaps[0][0];
    }
  }

  lemma {:induction false} FieldsWeave(s: string) returns (gaps: seq<string>)
    ensures |gaps| == |Fields(s)| + 1 && AreGaps(gaps, Fields(s)) && s == Woven(gaps, Fields(s))
    ensures s != "" && !IsAsciiSpace(s[0]) ==> gaps[0] == ""
    ensures s != "" && IsAsciiSpace(s[0]) ==> gaps[0] != ""
    decreases |s|
  {
    hide AreGaps, Woven;
    if s == "" {
      gaps := [""];
      NoWords();
    } else if IsAsciiSpace(s[0]) {
      var rest := FieldsWeave(s[1..]);
      gaps := [[s[0]] + rest[0]] + rest[1..];
      WiderGap(s[0], rest, Fields(s[1..]));
      assert s == [s[0]] + s[1..];
    } else {
      var n := WordLength(s);
      var rest := FieldsWeave(s[n..]);
      gaps := [""] + rest;
      OneMoreWord(s[..n], rest, Fields(s[n..]));
      assert s == s[..n] + s[n..];
    }
  }

  lemma NoWords()
    ensures AreGaps([""], []) && Woven([""], []) == ""
  {
  }

  lemma WiderGap(c: char, gaps: seq<string>, words: seq<string>)
    requires AreGaps(gaps, words) && IsAsciiSpace(c)
    ensures var wider := [[c] + gaps[0]] + gaps[1..];
            AreGaps(wider, words) && Woven(wider, words) == [c] + Woven(gaps, words)
  {
    var wider := [[c] + gaps[0]] + gaps[1..];
    assert forall i | 1 <= i < |gaps| :: wider[i] == gaps[i];
    assert wider[1..] == gaps[1..];
    if words != [] {
      var rest := words[0] + Woven(gaps[1..], words[1..]);
      assert [c] + gaps[0] + rest == [c] + (gaps[0] + rest);
    }
  }

  lemma OneMoreWord(w: string, gaps: seq<string>, words: seq<string>)
    requires AreGaps(gaps, words) && IsWord(w) && (words != [] ==> gaps[0] != "")
    ensures AreGaps([""] + gaps, [w] + words)
    ensures Woven([""] + gaps, [w] + words) == w + Woven(gaps, words)
  {
    var gaps', words' := [""] + gaps, [w] + words;
    assert forall i | 1 <= i < |gaps'| :: gaps'[i] == gaps[i - 1];
    assert forall i | 1 <= i < |words'| :: words'[i] == words[i - 1];
    assert gaps'[1..] == gaps && words'[1..] == words;
  }

  /** Splitting yields exactly the words that the text consists of besides whitespace. */
  lemma FieldsExactly(s: string, words: seq<string>)
    ensures Fields(s) == words <==> SplitsInto(s, words)
  {
    if Fields(s) == words {
      var gaps := FieldsWeave(s);
    }
    if SplitsInto(s, words) {
      var gaps :| AreGaps(gaps, words) && s == Woven(gaps, words);
      FieldsOfWoven(gaps, words);
    }
  }

  /** Total length of the fields themselves. */
  function TotalLength(fields: seq<string>): nat {
    if fields == [] then 0 else |fields[0]| + TotalLength(fields[1..])
  }

  lemma {:induction false} SpacedIsAscii(fields: seq<string>)
    requires forall f | f in fields :: IsAscii(f)
    ensures IsAscii(Spaced(fields))
    ensures fields != [] ==> |Spaced(fields)| == TotalLength(fields) + |fields| - 1
  {
    if fields != [] {
      assert fields[0] in fields;
      SpacedIsAscii(fields[1..]);
    }
  }

  // ---------- Newline-terminated lines ----------

  /** Every line followed by a newline. */
  function Terminated(lines: seq<string>): string {
    if lines == [] then "" else lines[0] + "\n" + Terminated(lines[1..])
  }

  predicate IsLine(line: string) {
    '\n' !in line
  }

  lemma CutUnique<T>(u: seq<T>, v: seq<T>, c: T, x: seq<T>, y: seq<T>)
    requires c !in u && c !in v
    requires u + [c] + x == v + [c] + y
    ensures u == v && x == y
  {
    var s := u + [c] + x;
    assert s[|u|] == c && s[|v|] == c;
    assert forall i | 0 <= i < |u| :: s[i] == u[i] && u[i] in u;
    assert forall i | 0 <= i < |v| :: s[i] == v[i] && v[i] in v;
    assert u == s[..|u|] && v == s[..|v|];
    assert x == s[|u| + 1..] && y == s[|v| + 1..];
  }

  /** Equally many lines can be recovered from the front of a byte string, whatever follows them. */
  lemma {:induction false} TerminatedUnique(a: seq<string>, b: seq<string>, x: Bytes, y: Bytes)
    requires |a| == |b|
    requires forall i | 0 <= i < |a| :: IsLine(a[i]) && IsLine(b[i])
    requires Utf8(Terminated(a)) + x == Utf8(Terminated(b)) + y
    ensures a == b && x == y
  {
    if a == [] {
      assert Utf8("") + x == x && Utf8("") + y == y;
    } else {
      var a', b' := Utf8(Terminated(a[1..])) + x, Utf8(Terminated(b[1..])) + y;
      TerminatedFollowed(a, x);
      TerminatedFollowed(b, y);
      Utf8AsciiByte(a[0], '\n');
      Utf8AsciiByte(b[0], '\n');
      CutUnique(Utf8(a[0]), Utf8(b[0]), 10, a', b');
      Utf8Injective(a[0], b[0]);
      TerminatedUnique(a[1..], b[1..], x, y);
      assert a == [a[0]] + a[1..] && b == [b[0]] + b[1..];
    }
  }

  lemma TerminatedFollowed(lines: seq<string>, x: Bytes)
    requires lines != []
    ensures Utf8(Terminated(lines)) + x == Utf8(lines[0]) + [10] + (Utf8(Terminated(lines[1..])) + x)
  {
    TerminatedHead(lines);
    ConcatAssociates(Utf8(lines[0]) + [10], Utf8(Terminated(lines[1..])), x);
  }

  lemma ConcatAssociates<T>(u: seq<T>, v: seq<T>, w: seq<T>)
    ensures u + v + w == u + (v + w)
  {
  }

  lemma TerminatedHead(lines: seq<string>)
    requires lines != []
    ensures Utf8(Terminated(lines)) == Utf8(lines[0]) + [10] + Utf8(Terminated(lines[1..]))
  {
    var rest := Terminated(lines[1..]);
    Utf8Concat(lines[0] + "\n", rest);
    Utf8Concat(lines[0], "\n");
    assert Utf8("\n") == [10] by {
      assert "\n"[1..] == "";
    }
  }

  // ---------- Decimal numbers ----------

  function Digit(d: nat): char
    requires d < 10
  {
    '0' + d as char
  }

  predicate IsDigit(c: char) {
    '0' <= c <= '9'
  }

  predicate AllDigits(s: string) {
    forall i | 0 <= i < |s| :: IsDigit(s[i])
  }

  /** `Display` of an unsigned integer. */
  function Decimal(n: nat): (s: string)
    ensures s != "" && AllDigits(s)
  {
    if n < 10 then [Digit(n)] else Decimal(n / 10) + [Digit(n % 10)]
  }

  function DigitsValue(s: string): nat
    requires AllDigits(s)
  {
    if s == "" then 0
    else 10 * DigitsValue(s[..|s| - 1]) + (s[|s| - 1] as nat - '0' as nat)
  }

  /** `FromStr` of an unsigned integer type: an optional `+`, then digits, at most `max`. */
  function ParseUnsigned(s: string, max: nat): (r: Option<nat>)
    ensures r.Some? ==> r.value <= max
  {
    var digits := if |s| > 1 && s[0] == '+' then s[1..] else s;
    if digits == "" || !AllDigits(digits) || DigitsValue(digits) > max then None
    else Some(DigitsValue(digits))
  }

  lemma {:induction false} DecimalValue(n: nat)
    ensures DigitsValue(Decimal(n)) == n
  {
    var s := Decimal(n);
    if n >= 10 {
      DecimalValue(n / 10);
      assert s[..|s| - 1] == Decimal(n / 10);
    }
  }

  /** Parsing the printed form of an in-range number returns it. */
  lemma DecimalRoundTrip(n: nat, max: nat)
    requires n <= max
    ensures ParseUnsigned(Decimal(n), max) == Some(n)
  {
    DecimalValue(n);
    assert IsDigit(Decimal(n)[0]);
  }

  /** Zeros that may stand before a number. */
  function Zeros(k: nat): string {
    seq(k, _ => '0')
  }

  lemma DecimalStep(m: nat, d: nat)
    requires m > 0 && d < 10
    ensures Decimal(10 * m + d) == Decimal(m) + [Digit(d)]
  {
    assert (10 * m + d) / 10 == m && (10 * m + d) % 10 == d;
  }

  lemma ZerosStep(zeros: nat, d: nat)
    requires d < 10
    ensures Zeros(zeros) + Decimal(0) + [Digit(d)] == Zeros(zeros + 1) + Decimal(d)
  {
    assert Decimal(0) == "0" && Decimal(d) == [Digit(d)];
  }

  lemma DigitOfChar(c: char)
    requires IsDigit(c)
    ensures Digit(c as nat - '0' as nat) == c && Decimal(c as nat - '0' as nat) == [c]
  {
  }

  lemma {:induction false} DigitsAreDecimal(digits: string) returns (zeros: nat)
    requires digits != "" && AllDigits(digits)
    ensures digits == Zeros(zeros) + Decimal(DigitsValue(digits))
  {
    hide Decimal, Digit, Zeros;
    var init, last := digits[..|digits| - 1], digits[|digits| - 1];
    var m, d := DigitsValue(init), last as nat - '0' as nat;
    assert digits == init + [last];
    DigitOfChar(last);
    if init == "" {
      zeros := 0;
      NoZeros(digits);
    } else {
      zeros := DigitsAreDecimal(init);
      if m == 0 {
        ZerosStep(zeros, d);
        zeros := zeros + 1;
      } else {
        DecimalStep(m, d);
        ConcatAssociates(Zeros(zeros), Decimal(m), [last]);
      }
    }
  }

  lemma NoZeros(s: string)
    ensures Zeros(0) + s == s
  {
  }

  lemma {:induction false} LeadingZeros(zeros: nat, digits: string)
    requires AllDigits(digits)
    ensures AllDigits(Zeros(zeros) + digits) && DigitsValue(Zeros(zeros) + digits) == DigitsValue(digits)
  {
    if digits != "" {
      var init := digits[..|digits| - 1];
      LeadingZeros(zeros, init);
      var s := Zeros(zeros) + digits;
      assert s[..|s| - 1] == Zeros(zeros) + init;
    } else if zeros > 0 {
      LeadingZeros(zeros - 1, "");
      assert Zeros(zeros) + "" == Zeros(zeros) && Zeros(zeros - 1) + "" == Zeros(zeros - 1);
      assert Zeros(zeros)[..zeros - 1] == Zeros(zeros - 1);
    }
  }

  /** An optional `+`, zeros, and the printed form of the number. */
  ghost predicate SpellsNumber(s: string, n: nat) {
    exists sign, zeros :: (sign == "" || sign == "+") && s == sign + (Zeros(zeros) + Decimal(n))
  }

  lemma NotEmpty(zeros: nat, digits: string)
    requires digits != ""
    ensures Zeros(zeros) + digits != ""
  {
  }

  /** Parsing accepts exactly the spellings of numbers up to the limit. */
  lemma ParseUnsignedExactly(s: string, max: nat, n: nat)
    ensures ParseUnsigned(s, max) == Some(n) <==> n <= max && SpellsNumber(s, n)
  {
    hide Decimal, Zeros, DigitsValue;
    if ParseUnsigned(s, max) == Some(n) {
      var signed := |s| > 1 && s[0] == '+';
      var digits := if signed then s[1..] else s;
      var zeros := DigitsAreDecimal(digits);
      var sign := if signed then "+" else "";
      assert s == sign + (Zeros(zeros) + Decimal(n));
    }
    if n <= max && SpellsNumber(s, n) {
      var sign, zeros :| (sign == "" || sign == "+") && s == sign + (Zeros(zeros) + Decimal(n));
      var digits := Zeros(zeros) + Decimal(n);
      LeadingZeros(zeros, Decimal(n));
      DecimalValue(n);
      NotEmpty(zeros, Decimal(n));
      assert IsDigit(digits[0]);
      if sign == "+" {
        assert s[1..] == digits;
      } else {
        assert s == digits;
      }
    }
  }

  lemma {:induction false} DecimalHasNoLeadingZero(n: nat)
    ensures |Decimal(n)| == 1 || Decimal(n)[0] != '0'
  {
    if n >= 10 {
      DecimalHasNoLeadingZero(n / 10);
    }
  }

  lemma {:induction false} DecimalLength(n: nat, digits: nat, bound: nat)
    requires digits > 0 && n < bound && bound == Pow10(digits)
    ensures |Decimal(n)| <= digits
  {
    if n >= 10 {
      DecimalLength(n / 10, digits - 1, Pow10(digits - 1));
    }
  }

  function Pow10(k: nat): nat {
    if k == 0 then 1 else 10 * Pow10(k - 1)
  }

  // ---------- Node IDs ----------

  predicate IsNodeIdChar(c: char) {
    'a' <= c <= 'z' || 'A' <= c <= 'Z' || '0' <= c <= '9' || c == '-' || c == '_' || c == '.'
  }

  /** `valid_node_id`. */
  predicate ValidNodeId(id: string) {
    id != "" && |id| <= MAX_NODE_ID_BYTES && forall i | 0 <= i < |id| :: IsNodeIdChar(id[i])
  }

  lemma NodeIdIsPlain(id: string)
    requires ValidNodeId(id)
    ensures IsWord(id) && IsLine(id) && IsAscii(id)
  {
  }

  lemma DecimalIsPlain(n: nat)
    ensures IsWord(Decimal(n)) && IsLine(Decimal(n)) && IsAscii(Decimal(n))
  {
    assert forall i | 0 <= i < |Decimal(n)| :: IsDigit(Decimal(n)[i]);
  }

  /** One to 64 letters, digits, hyphens, dots and underscores. */
  lemma ValidNodeIdExactly(id: string)
    ensures ValidNodeId(id) <==>
            1 <= |id| <= 64 && forall i | 0 <= i < |id| ::
              (var c := id[i] as int; 65 <= c <= 90 || 97 <= c <= 122 || 48 <= c <= 57 || c in {45, 46, 95})
  {
    forall i | 0 <= i < |id|
      ensures IsNodeIdChar(id[i]) <==>
              (var c := id[i] as int; 65 <= c <= 90 || 97 <= c <= 122 || 48 <= c <= 57 || c in {45, 46, 95})
    {
    }
  }
}
