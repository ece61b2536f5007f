/** Identity and authorization files (src/identity.rs), given their contents. */
module Identities {
  import opened Base
  import opened Hex
  import opened Text

  const PRIVATE_FILE_VERSION: string := "MESHLET-IDENTITY/1"
  const PUBLIC_FILE_VERSION: string := "MESHLET-AUTHORIZATION/1"

  datatype RawIdentity = RawIdentity(nodeId: string, signingKey: Bytes32)

  /** A loaded identity; its name was validated. */
  type Identity = i: RawIdentity | ValidNodeId(i.nodeId) witness RawIdentity("a", seq(32, _ => 0))

  /** A loaded authorization file; its names were validated. */
  type Authorizations = m: map<string, Bytes32> | forall id | id in m :: ValidNodeId(id) witness map[]

  // ---------- Lines ----------

  /** Position of the first newline, or the length. */
  function LineLength(s: string): (n: nat)
    ensures n <= |s| && IsLine(s[..n]) && (n < |s| ==> s[n] == '\n')
  {
    if s == "" || s[0] == '\n' then 0 else 1 + LineLength(s[1..])
  }

  function StripReturn(line: string): string {
    if line != "" && line[|line| - 1] == '\r' then line[..|line| - 1] else line
  }

  /** `str::lines()`: a last line need not be terminated; `\r\n` also ends a line. */
  function Lines(s: string): seq<string>
    decreases |s|
  {
    if s == "" then []
    else
      var n := LineLength(s);
      if n == |s| then [s] else [StripReturn(s[..n])] + Lines(s[n + 1..])
  }

  /** `char::is_whitespace`. */
  predicate IsSpace(c: char) {
    var n := c as int;
    || 0x09 <= n <= 0x0D || n == 0x20 || n == 0x85 || n == 0xA0 || n == 0x1680
    || 0x2000 <= n <= 0x200A || n == 0x2028 || n == 0x2029 || n == 0x202F || n == 0x205F || n == 0x3000
  }

  function TrimStart(s: string): string {
    if s != "" && IsSpace(s[0]) then TrimStart(s[1..]) else s
  }

  function TrimEnd(s: string): string {
    if s != "" && IsSpace(s[|s| - 1]) then TrimEnd(s[..|s| - 1]) else s
  }

  /** `str::trim()`. */
  function Trim(s: string): string {
    TrimEnd(TrimStart(s))
  }

  // ---------- Authorization files ----------

  datatype LineFault = Malformed | UnsupportedVersion | InvalidNodeId | InvalidHex | InvalidKey

  datatype LineMeaning = Blank | Grant(nodeId: string, key: Bytes32) | Bad(fault: LineFault)

  /** What one line says. `isKey` stands for `VerifyingKey::from_bytes`. */
  function Meaning(isKey: Bytes32 -> bool, line: string): LineMeaning {
    var text := Trim(line);
    if text == "" || text[0] == '#' then Blank
    else
      var fields := Fields(text);
      if |fields| != 3 then Bad(Malformed)
      else if fields[0] != PUBLIC_FILE_VERSION then Bad(UnsupportedVersion)
      else if !ValidNodeId(fields[1]) then Bad(InvalidNodeId)
      else
        match HexBytes(32, fields[2])
        case None => Bad(InvalidHex)
        case Some(key) => if isKey(key) then Grant(fields[1], key) else Bad(InvalidKey)
  }

  ghost predicate Distinct(isKey: Bytes32 -> bool, lines: seq<string>) {
    forall i, j | 0 <= i < j < |lines| :: Differ(Meaning(isKey, lines[i]), Meaning(isKey, lines[j]))
  }

  /** The first `n` lines are well formed and grant no ID twice. */
  ghost predicate Acceptable(isKey: Bytes32 -> bool, lines: seq<string>, n: nat)
    requires n <= |lines|
  {
    && (forall i | 0 <= i < n :: !Meaning(isKey, lines[i]).Bad?)
    && Distinct(isKey, lines[..n])
  }

  predicate Differ(a: LineMeaning, b: LineMeaning) {
    a.Grant? && b.Grant? ==> a.nodeId != b.nodeId
  }

  /** `keys` is exactly what the first `n` lines grant. */
  ghost predicate Holds(isKey: Bytes32 -> bool, lines: seq<string>, n: nat, keys: map<string, Bytes32>)
    requires n <= |lines|
  {
    && (forall i | 0 <= i < n && Meaning(isKey, lines[i]).Grant? ::
          var g := Meaning(isKey, lines[i]); g.nodeId in keys && keys[g.nodeId] == g.key)
    && (forall id | id in keys :: exists i | 0 <= i < n :: Meaning(isKey, lines[i]) == Grant(id, keys[id]))
  }

  /** The lines of a file that loads, and the keys they give. */
  ghost predicate LoadsAs(isKey: Bytes32 -> bool, lines: seq<string>, keys: map<string, Bytes32>) {
    Acceptable(isKey, lines, |lines|) && Holds(isKey, lines, |lines|, keys) && keys != map[]
  }

  datatype LoadError = BadLine(number: nat, fault: LineFault) | Duplicate(nodeId: string) | NoKeys

  datatype LoadResult = Loaded(keys: Authorizations) | Failed(error: LoadError)

  /** What stops the loading of a file, at the first line that does; lines are numbered from one. */
  ghost predicate FailsWith(isKey: Bytes32 -> bool, lines: seq<string>, error: LoadError) {
    match error
    case BadLine(number, fault) =>
      && 1 <= number <= |lines| && Acceptable(isKey, lines, number - 1)
      && Meaning(isKey, lines[number - 1]) == Bad(fault)
    case Duplicate(nodeId) =>
      exists i, j | 0 <= i < j < |lines| && Acceptable(isKey, lines, j) ::
        && Meaning(isKey, lines[i]).Grant? && Meaning(isKey, lines[i]).nodeId == nodeId
        && Meaning(isKey, lines[j]).Grant? && Meaning(isKey, lines[j]).nodeId == nodeId
    case NoKeys => forall i | 0 <= i < |lines| :: Meaning(isKey, lines[i]).Blank?
  }

  /** One line of the loading loop. */
  method ReadLine(isKey: Bytes32 -> bool, line: string) returns (meaning: LineMeaning)
    ensures meaning == Meaning(isKey, line)
  {
    var text := Trim(line);
    if text == "" || text[0] == '#' {
      return Blank;
    }
    var fields := Fields(text);
    if |fields| != 3 {
      return Bad(Malformed);
    }
    if fields[0] != PUBLIC_FILE_VERSION {
      return Bad(UnsupportedVersion);
    }
    if !ValidNodeId(fields[1]) {
      return Bad(InvalidNodeId);
    }
    var publicBytes := DecodeHexArray(32, fields[2]);
    if publicBytes.None? {
      return Bad(InvalidHex);
    }
    meaning := if isKey(publicBytes.value) then Grant(fields[1], publicBytes.value) else Bad(InvalidKey);
  }

  /** `Authorizations::load` on the contents of a file. */
  method Load(isKey: Bytes32 -> bool, contents: string) returns (r: LoadResult)
    ensures r.Loaded? ==> LoadsAs(isKey, Lines(contents), r.keys)
    ensures r.Failed? ==> FailsWith(isKey, Lines(contents), r.error)
    ensures r.Loaded? <==> exists keys :: LoadsAs(isKey, Lines(contents), keys)
  {
    hide Meaning, Acceptable, Holds, LoadsAs, FailsWith, Lines;
    var lines := Lines(contents);
    var keys: Authorizations := map[];
    NothingReadYet(isKey, lines);
    for index := 0 to |lines|
      invariant Acceptable(isKey, lines, index) && Holds(isKey, lines, index, keys)
    {
      var meaning := ReadLine(isKey, lines[index]);
      match meaning {
        case Blank =>
          KeepOn(isKey, lines, index, keys);
        case Bad(fault) =>
          r := Failed(BadLine(index + 1, fault));
          BadLineFails(isKey, lines, index);
          FailureIsFinal(isKey, lines, r.error);
          return;
        case Grant(nodeId, key) =>
          GrantsAreValid(isKey, lines[index]);
          if nodeId in keys {
            r := Failed(Duplicate(nodeId));
            DuplicateFails(isKey, lines, index, keys);
            FailureIsFinal(isKey, lines, r.error);
            return;
          }
          AddGrant(isKey, lines, index, keys, nodeId, key);
          keys := keys[nodeId := key];
      }
    }
    if keys == map[] {
      r := Failed(NoKeys);
      NoKeysFails(isKey, lines);
      FailureIsFinal(isKey, lines, r.error);
      return;
    }
    r := Loaded(keys);
    ReadAll(isKey, lines, keys);
  }

  lemma NothingReadYet(isKey: Bytes32 -> bool, lines: seq<string>)
    ensures Acceptable(isKey, lines, 0) && Holds(isKey, lines, 0, map[])
  {
  }

  lemma BadLineFails(isKey: Bytes32 -> bool, lines: seq<string>, n: nat)
    requires n < |lines| && Acceptable(isKey, lines, n) && Meaning(isKey, lines[n]).Bad?
    ensures FailsWith(isKey, lines, BadLine(n + 1, Meaning(isKey, lines[n]).fault))
  {
  }

  lemma DuplicateFails(isKey: Bytes32 -> bool, lines: seq<string>, n: nat, keys: map<string, Bytes32>)
    requires n < |lines| && Acceptable(isKey, lines, n) && Holds(isKey, lines, n, keys)
    requires Meaning(isKey, lines[n]).Grant? && Meaning(isKey, lines[n]).nodeId in keys
    ensures FailsWith(isKey, lines, Duplicate(Meaning(isKey, lines[n]).nodeId))
  {
    hide Meaning, Acceptable;
    var id := Meaning(isKey, lines[n]).nodeId;
    var i :| 0 <= i < n && Meaning(isKey, lines[i]) == Grant(id, keys[id]);
  }

  lemma NoKeysFails(isKey: Bytes32 -> bool, lines: seq<string>)
    requires Acceptable(isKey, lines, |lines|) && Holds(isKey, lines, |lines|, map[])
    ensures FailsWith(isKey, lines, NoKeys)
  {
    hide Meaning;
  }

  lemma ReadAll(isKey: Bytes32 -> bool, lines: seq<string>, keys: map<string, Bytes32>)
    requires Acceptable(isKey, lines, |lines|) && Holds(isKey, lines, |lines|, keys) && keys != map[]
    ensures LoadsAs(isKey, lines, keys)
  {
  }

  lemma GrantsAreValid(isKey: Bytes32 -> bool, line: string)
    ensures Meaning(isKey, line).Grant? ==> ValidNodeId(Meaning(isKey, line).nodeId) && isKey(Meaning(isKey, line).key)
  {
  }

  lemma KeepOn(isKey: Bytes32 -> bool, lines: seq<string>, n: nat, keys: map<string, Bytes32>)
    requires n < |lines| && Acceptable(isKey, lines, n) && Holds(isKey, lines, n, keys)
    requires Meaning(isKey, lines[n]).Blank?
    ensures Acceptable(isKey, lines, n + 1) && Holds(isKey, lines, n + 1, keys)
  {
    hide Meaning;
  }

  lemma AddGrant(isKey: Bytes32 -> bool, lines: seq<string>, n: nat, keys: map<string, Bytes32>, id: string, key: Bytes32)
    requires n < |lines| && Acceptable(isKey, lines, n) && Holds(isKey, lines, n, keys)
    requires Meaning(isKey, lines[n]) == Grant(id, key) && id !in keys
    ensures Acceptable(isKey, lines, n + 1) && Holds(isKey, lines, n + 1, keys[id := key])
  {
    hide Meaning;
    var keys' := keys[id := key];
    forall x | x in keys'
      ensures exists i | 0 <= i < n + 1 :: Meaning(isKey, lines[i]) == Grant(x, keys'[x])
    {
      if x == id {
        assert Meaning(isKey, lines[n]) == Grant(x, keys'[x]);
      } else {
        var i :| 0 <= i < n && Meaning(isKey, lines[i]) == Grant(x, keys[x]);
      }
    }
  }

  /** No file both loads and fails, and what it loads as is unique: the outcome of `Load` is decided
      by its contract. */
  lemma LoadIsDecided(isKey: Bytes32 -> bool, lines: seq<string>, keys: map<string, Bytes32>)
    requires LoadsAs(isKey, lines, keys)
    ensures forall error :: !FailsWith(isKey, lines, error)
    ensures forall keys' | LoadsAs(isKey, lines, keys') :: keys' == keys
  {
    hide Meaning;
    forall error
      ensures !FailsWith(isKey, lines, error)
    {
      var id :| id in keys;
      var i :| 0 <= i < |lines| && Meaning(isKey, lines[i]) == Grant(id, keys[id]);
    }
    forall keys' | LoadsAs(isKey, lines, keys')
      ensures keys' == keys
    {
      HoldsWithin(isKey, lines, keys, keys');
      HoldsWithin(isKey, lines, keys', keys);
    }
  }

  lemma FailureIsFinal(isKey: Bytes32 -> bool, lines: seq<string>, error: LoadError)
    requires FailsWith(isKey, lines, error)
    ensures forall keys :: !LoadsAs(isKey, lines, keys)
  {
    hide LoadsAs, FailsWith;
    forall keys
      ensures !LoadsAs(isKey, lines, keys)
    {
      if LoadsAs(isKey, lines, keys) {
        LoadIsDecided(isKey, lines, keys);
        assert false;
      }
    }
  }

  lemma HoldsWithin(isKey: Bytes32 -> bool, lines: seq<string>, a: map<string, Bytes32>, b: map<string, Bytes32>)
    requires Holds(isKey, lines, |lines|, a) && Holds(isKey, lines, |lines|, b)
    ensures forall id | id in a :: id in b && a[id] == b[id]
  {
    hide Meaning;
    forall id | id in a
      ensures id in b && a[id] == b[id]
    {
      var i :| 0 <= i < |lines| && Meaning(isKey, lines[i]) == Grant(id, a[id]);
    }
  }

  // ---------- The order of lines does not matter ----------

  /** How many lines grant an ID. */
  ghost function GrantCount(isKey: Bytes32 -> bool, lines: seq<string>, id: string): nat {
    if lines == [] then 0
    else Weight(isKey, lines[0], id) + GrantCount(isKey, lines[1..], id)
  }

  ghost function Weight(isKey: Bytes32 -> bool, line: string, id: string): nat {
    if Meaning(isKey, line).Grant? && Meaning(isKey, line).nodeId == id then 1 else 0
  }

  lemma {:induction false} GrantCountConcat(isKey: Bytes32 -> bool, a: seq<string>, b: seq<string>, id: string)
    ensures GrantCount(isKey, a + b, id) == GrantCount(isKey, a, id) + GrantCount(isKey, b, id)
  {
    if a == [] {
      assert a + b == b;
    } else {
      assert (a + b)[1..] == a[1..] + b;
      GrantCountConcat(isKey, a[1..], b, id);
    }
  }

  lemma Cancel(x: multiset<string>, y: multiset<string>, z: multiset<string>)
    requires x + y == x + z
    ensures y == z
  {
    assert forall e :: (x + y)[e] == x[e] + y[e] && (x + z)[e] == x[e] + z[e];
  }

  lemma MultisetOfConcat(a: seq<string>, b: seq<string>)
    ensures multiset(a + b) == multiset(a) + multiset(b)
  {
  }

  lemma MoveToFront(a: seq<string>, b: seq<string>) returns (k: nat)
    requires a != [] && multiset(a) == multiset(b)
    ensures k < |b| && b == b[..k] + ([a[0]] + b[k + 1..])
    ensures multiset(a[1..]) == multiset(b[..k] + b[k + 1..])
  {
    assert a[0] in multiset(a);
    k :| 0 <= k < |b| && b[k] == a[0];
    var front, back, first := b[..k], b[k + 1..], [a[0]];
    assert a == first + a[1..] && b == front + (first + back);
    MultisetOfConcat(first, a[1..]);
    MultisetOfConcat(front, first + back);
    MultisetOfConcat(first, back);
    MultisetOfConcat(front, back);
    Cancel(multiset(first), multiset(a[1..]), multiset(front + back));
  }

  lemma {:induction false} GrantCountPermuted(isKey: Bytes32 -> bool, a: seq<string>, b: seq<string>, id: string)
    requires multiset(a) == multiset(b)
    ensures GrantCount(isKey, a, id) == GrantCount(isKey, b, id)
  {
    hide Weight;
    if a == [] {
      assert |multiset(b)| == 0;
    } else {
      var k := MoveToFront(a, b);
      var front, back := b[..k], b[k + 1..];
      GrantCountPermuted(isKey, a[1..], front + back, id);
      GrantCountConcat(isKey, front, [a[0]] + back, id);
      GrantCountConcat(isKey, front, back, id);
      assert ([a[0]] + back)[1..] == back;
    }
  }

  lemma DistinctTail(isKey: Bytes32 -> bool, lines: seq<string>)
    requires lines != []
    ensures Distinct(isKey, lines) <==>
            && Distinct(isKey, lines[1..])
            && forall line | line in lines[1..] :: Differ(Meaning(isKey, lines[0]), Meaning(isKey, line))
  {
    hide Meaning, Differ;
    var rest := lines[1..];
    assert forall i | 0 <= i < |rest| :: rest[i] == lines[i + 1];
    assert forall j | 1 <= j < |lines| :: lines[j] == rest[j - 1];
    if Distinct(isKey, lines) {
      forall line | line in rest
        ensures Differ(Meaning(isKey, lines[0]), Meaning(isKey, line))
      {
        var j :| 0 <= j < |rest| && rest[j] == line;
        assert lines[j + 1] == line;
      }
    }
  }

  lemma {:induction false} DistinctMeansCount(isKey: Bytes32 -> bool, lines: seq<string>, id: string)
    requires Distinct(isKey, lines)
    ensures GrantCount(isKey, lines, id) <= 1
  {
    if lines != [] {
      DistinctTail(isKey, lines);
      hide Meaning, Distinct;
      DistinctMeansCount(isKey, lines[1..], id);
      CountPositive(isKey, lines[1..], id);
    }
  }

  lemma {:induction false} CountMeansDistinct(isKey: Bytes32 -> bool, lines: seq<string>)
    requires forall id :: GrantCount(isKey, lines, id) <= 1
    ensures Distinct(isKey, lines)
  {
    if lines != [] {
      var first, rest := Meaning(isKey, lines[0]), lines[1..];
      DistinctTail(isKey, lines);
      hide Meaning, Distinct;
      forall id ensures GrantCount(isKey, rest, id) <= 1 {
        assert GrantCount(isKey, lines, id) <= 1;
      }
      CountMeansDistinct(isKey, rest);
      if first.Grant? {
        assert GrantCount(isKey, lines, first.nodeId) <= 1;
        CountPositive(isKey, rest, first.nodeId);
      }
    }
  }

  lemma {:induction false} CountPositive(isKey: Bytes32 -> bool, lines: seq<string>, id: string)
    ensures GrantCount(isKey, lines, id) > 0 <==>
            exists line | line in lines :: Meaning(isKey, line).Grant? && Meaning(isKey, line).nodeId == id
  {
    hide Meaning;
    if lines != [] {
      CountPositive(isKey, lines[1..], id);
      assert forall line :: line in lines <==> line == lines[0] || line in lines[1..];
    }
  }

  /** Reordering the lines of a file changes neither whether it loads nor what it loads as. */
  lemma {:induction false} OrderDoesNotMatter(isKey: Bytes32 -> bool, a: seq<string>, b: seq<string>, keys: map<string, Bytes32>)
    requires multiset(a) == multiset(b)
    ensures LoadsAs(isKey, a, keys) == LoadsAs(isKey, b, keys)
  {
    if LoadsAs(isKey, a, keys) {
      ReorderedLoads(isKey, a, b, keys);
    }
    if LoadsAs(isKey, b, keys) {
      ReorderedLoads(isKey, b, a, keys);
    }
  }

  lemma ReorderedLoads(isKey: Bytes32 -> bool, a: seq<string>, b: seq<string>, keys: map<string, Bytes32>)
    requires multiset(a) == multiset(b) && LoadsAs(isKey, a, keys)
    ensures LoadsAs(isKey, b, keys)
  {
    hide Meaning;
    forall x ensures x in a <==> x in b {
      assert x in multiset(a) <==> x in multiset(b);
    }
    assert a == a[..|a|] && b == b[..|b|];
    forall id ensures GrantCount(isKey, b, id) <= 1 {
      GrantCountPermuted(isKey, a, b, id);
      DistinctMeansCount(isKey, a, id);
    }
    CountMeansDistinct(isKey, b);
    forall id | id in keys
      ensures exists i | 0 <= i < |b| :: Meaning(isKey, b[i]) == Grant(id, keys[id])
    {
      var i :| 0 <= i < |a| && Meaning(isKey, a[i]) == Grant(id, keys[id]);
      assert a[i] in b;
    }
    forall i | 0 <= i < |b|
      ensures !Meaning(isKey, b[i]).Bad?
      ensures var g := Meaning(isKey, b[i]); g.Grant? ==> g.nodeId in keys && keys[g.nodeId] == g.key
    {
      assert b[i] in a;
    }
  }

  // ---------- Generated files ----------

  datatype Listing = Listing(nodeId: string, key: Bytes32)

  /** The line `generate` writes into a public file. */
  function PublicLine(l: Listing): string {
    Spaced([PUBLIC_FILE_VERSION, l.nodeId, HexText(l.key)])
  }

  function PublicLines(listings: seq<Listing>): (lines: seq<string>)
    ensures |lines| == |listings|
  {
    seq(|listings|, i requires 0 <= i < |listings| => PublicLine(listings[i]))
  }

  /** Generated public files, one after the other. */
  function PublicFile(listings: seq<Listing>): string {
    Terminated(PublicLines(listings))
  }

  /** The file `generate` writes the secret into. */
  function PrivateFile(nodeId: string, secret: Bytes32): string {
    Spaced([PRIVATE_FILE_VERSION, nodeId, HexText(secret)]) + "\n"
  }

  /** `load_identity` on the contents of a file. */
  function LoadIdentity(contents: string): Option<Identity> {
    var fields := Fields(contents);
    if |fields| != 3 || fields[0] != PRIVATE_FILE_VERSION || !ValidNodeId(fields[1]) then None
    else
      match HexBytes(32, fields[2])
      case None => None
      case Some(secret) => Some(RawIdentity(fields[1], secret))
  }

  // ---------- What generated files say ----------

  lemma {:induction false} LineLengthOfLine(line: string, rest: string)
    requires IsLine(line)
    ensures LineLength(line + "\n" + rest) == |line|
  {
    if line == "" {
      assert line + "\n" + rest == "\n" + rest;
    } else {
      assert (line + "\n" + rest)[1..] == line[1..] + "\n" + rest;
      LineLengthOfLine(line[1..], rest);
    }
  }

  /** Splitting undoes terminating, for lines that end in no carriage return. */
  lemma {:induction false} LinesOfTerminated(lines: seq<string>)
    requires forall line | line in lines :: IsLine(line) && StripReturn(line) == line
    ensures Lines(Terminated(lines)) == lines
  {
    hide StripReturn;
    if lines != [] {
      var rest := Terminated(lines[1..]);
      var s := lines[0] + "\n" + rest;
      LineLengthOfLine(lines[0], rest);
      assert s[..|lines[0]|] == lines[0] && s[|lines[0]| + 1..] == rest;
      LinesOfTerminated(lines[1..]);
      assert lines == [lines[0]] + lines[1..];
    }
  }

  lemma SpacedThree(a: string, b: string, c: string)
    ensures Spaced([a, b, c]) == a + " " + b + " " + c
  {
    assert [a, b, c][1..] == [b, c] && [b, c][1..] == [c];
    assert Spaced([b, c]) == b + " " + c;
    assert a + " " + (b + " " + c) == a + " " + b + " " + c;
  }

  /** Like `FieldsOfSpaced`, for three fields and a final newline or nothing. */
  lemma FieldsOfThree(a: string, b: string, c: string, end: string)
    requires IsWord(a) && IsWord(b) && IsWord(c) && (end == "" || end == "\n")
    ensures Fields(Spaced([a, b, c]) + end) == [a, b, c]
    ensures Spaced([a, b, c]) == a + " " + b + " " + c
  {
    var last := c + end;
    var middle := b + (" " + last);
    SpacedThree(a, b, c);
    assert a + " " + b + " " + c + end == a + (" " + middle);
    hide Spaced;
    FieldsOfWord(a, " " + middle);
    assert (" " + middle)[1..] == middle;
    FieldsOfWord(b, " " + last);
    assert (" " + last)[1..] == last;
    FieldsOfWord(c, end);
    assert end != "" ==> end[1..] == "";
  }

  lemma KeyTextIsWord(key: Bytes32)
    ensures IsWord(HexText(key)) && IsLine(HexText(key))
    ensures !IsSpace(HexText(key)[63]) && HexText(key)[63] != '\r'
  {
    HexTextIsHex(key);
    forall i | 0 <= i < 64
      ensures !IsSpace(HexText(key)[i]) && !IsAsciiSpace(HexText(key)[i]) && HexText(key)[i] != '\n'
    {
      assert IsHexDigit(HexText(key)[i]);
    }
  }

  predicate Grantable(isKey: Bytes32 -> bool, l: Listing) {
    ValidNodeId(l.nodeId) && isKey(l.key)
  }

  /** A generated line grants exactly the ID and the key it was made from. */
  lemma PublicLineMeans(isKey: Bytes32 -> bool, l: Listing)
    requires Grantable(isKey, l)
    ensures Meaning(isKey, PublicLine(l)) == Grant(l.nodeId, l.key)
    ensures IsLine(PublicLine(l)) && StripReturn(PublicLine(l)) == PublicLine(l)
  {
    var line, hex := PublicLine(l), HexText(l.key);
    KeyTextIsWord(l.key);
    NodeIdIsPlain(l.nodeId);
    HexRoundTrip(l.key);
    VersionsAreWords();
    hide HexText, HexBytes, Spaced, Fields, IsWord;
    FieldsOfThree(PUBLIC_FILE_VERSION, l.nodeId, hex, "");
    assert line + "" == line;
    assert line == PUBLIC_FILE_VERSION + " " + l.nodeId + " " + hex;
    assert line[0] == 'M' && line[|line| - 1] == hex[63];
    assert Trim(line) == line;
  }

  /** What a table holds when it was filled from listings. */
  ghost predicate Lists(listings: seq<Listing>, keys: map<string, Bytes32>) {
    && (forall l | l in listings :: l.nodeId in keys && keys[l.nodeId] == l.key)
    && (forall id | id in keys :: Listing(id, keys[id]) in listings)
  }

  ghost predicate NamesDiffer(listings: seq<Listing>) {
    forall i, j | 0 <= i < j < |listings| :: listings[i].nodeId != listings[j].nodeId
  }

  lemma {:induction false} ListsSomething(listings: seq<Listing>) returns (keys: map<string, Bytes32>)
    requires NamesDiffer(listings)
    ensures Lists(listings, keys)
  {
    keys := map[];
    if listings != [] {
      var n := |listings| - 1;
      keys := ListsSomething(listings[..n]);
      assert listings[n].nodeId !in keys;
      assert listings == listings[..n] + [listings[n]];
      keys := keys[listings[n].nodeId := listings[n].key];
    }
  }

  /** The lines of a file read as these listings. */
  ghost predicate ReadAs(isKey: Bytes32 -> bool, lines: seq<string>, listings: seq<Listing>) {
    && |lines| == |listings|
    && forall i | 0 <= i < |lines| :: Meaning(isKey, lines[i]) == Grant(listings[i].nodeId, listings[i].key)
  }

  lemma PublicFileReads(isKey: Bytes32 -> bool, listings: seq<Listing>)
    requires forall l | l in listings :: Grantable(isKey, l)
    ensures ReadAs(isKey, Lines(PublicFile(listings)), listings)
  {
    hide Meaning, PublicLine, StripReturn, IsLine, Lines, Terminated, Grantable;
    var lines := PublicLines(listings);
    forall i | 0 <= i < |listings|
      ensures Meaning(isKey, lines[i]) == Grant(listings[i].nodeId, listings[i].key)
      ensures IsLine(lines[i]) && StripReturn(lines[i]) == lines[i]
    {
      assert listings[i] in listings;
      PublicLineMeans(isKey, listings[i]);
    }
    LinesOfTerminated(lines);
  }

  lemma ListedLoad(isKey: Bytes32 -> bool, lines: seq<string>, listings: seq<Listing>, keys: map<string, Bytes32>)
    requires ReadAs(isKey, lines, listings)
    ensures LoadsAs(isKey, lines, keys) <==> listings != [] && NamesDiffer(listings) && Lists(listings, keys)
  {
    hide Meaning;
    assert lines[..|lines|] == lines;
    if LoadsAs(isKey, lines, keys) {
      var some :| some in keys;
      forall i, j | 0 <= i < j < |listings|
        ensures listings[i].nodeId != listings[j].nodeId
      {
        assert Differ(Meaning(isKey, lines[i]), Meaning(isKey, lines[j]));
      }
    }
    if listings != [] && Lists(listings, keys) {
      assert listings[0] in listings;
      forall id | id in keys
        ensures exists i | 0 <= i < |lines| :: Meaning(isKey, lines[i]) == Grant(id, keys[id])
      {
        var j :| 0 <= j < |listings| && listings[j] == Listing(id, keys[id]);
        assert Meaning(isKey, lines[j]) == Grant(id, keys[id]);
      }
    }
  }

  /** Generated public files can be concatenated: the result loads exactly when it is not empty and
      names no node twice, and then as exactly the keys that went in. */
  lemma {:induction false} PublicFilesConcatenate(isKey: Bytes32 -> bool, listings: seq<Listing>)
    requires forall l | l in listings :: Grantable(isKey, l)
    ensures (listings != [] && NamesDiffer(listings)) ==
            exists keys :: LoadsAs(isKey, Lines(PublicFile(listings)), keys)
    ensures forall keys | LoadsAs(isKey, Lines(PublicFile(listings)), keys) :: Lists(listings, keys)
  {
    PublicFileReads(isKey, listings);
    hide LoadsAs, PublicFile, Lines, NamesDiffer, Lists, ReadAs, Grantable;
    var lines := Lines(PublicFile(listings));
    forall keys
      ensures LoadsAs(isKey, lines, keys) <==> listings != [] && NamesDiffer(listings) && Lists(listings, keys)
    {
      ListedLoad(isKey, lines, listings, keys);
    }
    if listings != [] && NamesDiffer(listings) {
      var keys := ListsSomething(listings);
      assert LoadsAs(isKey, lines, keys);
    }
  }

  lemma PrivateFileLoads(nodeId: string, secret: Bytes32)
    requires ValidNodeId(nodeId)
    ensures LoadIdentity(PrivateFile(nodeId, secret)) == Some(RawIdentity(nodeId, secret))
  {
    hide HexText, Fields, Spaced, HexBytes;
    KeyTextIsWord(secret);
    NodeIdIsPlain(nodeId);
    HexRoundTrip(secret);
    VersionsAreWords();
    hide IsWord, IsLine, IsAscii, ValidNodeId;
    FieldsOfThree(PRIVATE_FILE_VERSION, nodeId, HexText(secret), "\n");
  }

  lemma VersionsAreWords()
    ensures IsWord(PRIVATE_FILE_VERSION) && IsWord(PUBLIC_FILE_VERSION)
  {
  }

  /** The two files `generate` writes for a secret load as that identity and as its public key. */
  lemma GeneratedFilesAgree(isKey: Bytes32 -> bool, publicOf: Bytes32 -> Bytes32, nodeId: string, secret: Bytes32)
    requires ValidNodeId(nodeId) && isKey(publicOf(secret))
    ensures LoadIdentity(PrivateFile(nodeId, secret)) == Some(RawIdentity(nodeId, secret))
    ensures LoadsAs(isKey, Lines(PublicFile([Listing(nodeId, publicOf(secret))])), map[nodeId := publicOf(secret)])
  {
    PrivateFileLoads(nodeId, secret);
    hide LoadIdentity, PrivateFile, LoadsAs, Lines, PublicFile;
    var l := Listing(nodeId, publicOf(secret));
    PublicFileReads(isKey, [l]);
    ListedLoad(isKey, Lines(PublicFile([l])), [l], map[nodeId := l.key]);
    assert l in [l];
  }

  // ---------- Exactly what each line says ----------

  /** The code points with the Unicode property White_Space. */
  lemma IsSpaceExactly(c: char)
    ensures IsSpace(c) <==> c as int in {
              0x9, 0xA, 0xB, 0xC, 0xD, 0x20, 0x85, 0xA0, 0x1680, 0x2000, 0x2001, 0x2002, 0x2003, 0x2004, 0x2005, 0x2006,
              0x2007, 0x2008, 0x2009, 0x200A, 0x2028, 0x2029, 0x202F, 0x205F, 0x3000}
  {
  }

  predicate AllSpace(s: string) {
    forall i | 0 <= i < |s| :: IsSpace(s[i])
  }

  /** Neither end is whitespace. */
  predicate IsTrimmed(t: string) {
    t != "" ==> !IsSpace(t[0]) && !IsSpace(t[|t| - 1])
  }

  /** `t` is what is left of `s` without the whitespace at both ends. */
  ghost predicate TrimsTo(s: string, t: string) {
    IsTrimmed(t) && exists before, after :: AllSpace(before) && AllSpace(after) && s == before + t + after
  }

  lemma {:induction false} TrimStartDrops(s: string) returns (before: string)
    ensures AllSpace(before) && s == before + TrimStart(s)
    ensures TrimStart(s) != "" ==> !IsSpace(TrimStart(s)[0])
  {
    before := "";
    if s != "" && IsSpace(s[0]) {
      var rest := TrimStartDrops(s[1..]);
      before := [s[0]] + rest;
    }
  }

  lemma {:induction false} TrimEndDrops(s: string) returns (after: string)
    ensures AllSpace(after) && s == TrimEnd(s) + after
    ensures TrimEnd(s) != "" ==> !IsSpace(TrimEnd(s)[|TrimEnd(s)| - 1]) && TrimEnd(s)[0] == s[0]
  {
    after := "";
    if s != "" && IsSpace(s[|s| - 1]) {
      var rest := TrimEndDrops(s[..|s| - 1]);
      after := rest + [s[|s| - 1]];
    }
  }

  lemma TrimTrims(s: string)
    ensures TrimsTo(s, Trim(s))
  {
    hide TrimStart, TrimEnd, IsSpace;
    var before := TrimStartDrops(s);
    var after := TrimEndDrops(TrimStart(s));
    ConcatAssociates(before, Trim(s), after);
    assert s == before + Trim(s) + after;
  }

  lemma TrimsToOne(s: string, t: string, t': string)
    requires TrimsTo(s, t) && TrimsTo(s, t')
    ensures t == t'
  {
    var u, v :| AllSpace(u) && AllSpace(v) && s == u + t + v;
    var u', v' :| AllSpace(u') && AllSpace(v') && s == u' + t' + v';
    SameTrimmed(u, t, v, u', t', v');
  }

  lemma EmptyTrimmed(u: string, t: string, v: string)
    requires AllSpace(u) && AllSpace(v) && IsTrimmed(t)
    ensures AllSpace(u + t + v) <==> t == ""
  {
    hide IsSpace;
    assert t != "" ==> (u + t + v)[|u|] == t[0];
  }

  lemma SameTrimmed(u: string, t: string, v: string, u': string, t': string, v': string)
    requires AllSpace(u) && AllSpace(v) && AllSpace(u') && AllSpace(v') && IsTrimmed(t) && IsTrimmed(t')
    requires u + t + v == u' + t' + v'
    ensures t == t'
  {
    var s := u + t + v;
    EmptyTrimmed(u, t, v);
    EmptyTrimmed(u', t', v');
    hide IsSpace;
    if t != "" {
      assert s[|u|] == t[0] && s[|u'|] == t'[0];
      assert |u| == |u'|;
      var end, end' := |u| + |t| - 1, |u'| + |t'| - 1;
      assert s[end] == t[|t| - 1] && s[end'] == t'[|t'| - 1];
      assert end == end';
      assert t == s[|u|..end + 1] && t' == s[|u'|..end' + 1];
    }
  }

  /** Trimming removes exactly the whitespace at both ends. */
  lemma TrimExactly(s: string, t: string)
    ensures Trim(s) == t <==> TrimsTo(s, t)
  {
    hide Trim, TrimsTo;
    TrimTrims(s);
    if TrimsTo(s, t) {
      TrimsToOne(s, t, Trim(s));
    }
  }

  /** A line is passed over exactly when it is all whitespace or its first other character is `#`. */
  lemma BlankExactly(isKey: Bytes32 -> bool, line: string)
    ensures Meaning(isKey, line).Blank? <==>
            AllSpace(line) || exists k :: 0 <= k < |line| && line[k] == '#' && AllSpace(line[..k])
  {
    hide Fields, HexBytes, IsSpace, Trim;
    var t := Trim(line);
    TrimTrims(line);
    var before, after :| AllSpace(before) && AllSpace(after) && line == before + t + after;
    HashIsNoSpace();
    if t == "" {
      assert AllSpace(line);
    } else {
      assert line[|before|] == t[0] && line[..|before|] == before;
      if k :| 0 <= k < |line| && line[k] == '#' && AllSpace(line[..k]) {
        assert forall p | 0 <= p < k :: line[..k][p] == line[p];
        assert k <= |before|;
        assert k < |before| ==> line[k] == before[k];
      }
    }
  }

  lemma HashIsNoSpace()
    ensures !IsSpace('#')
  {
  }

  /** The words of a line that is not passed over. */
  ghost predicate HasWords(line: string, words: seq<string>) {
    exists t :: TrimsTo(line, t) && t != "" && t[0] != '#' && SplitsInto(t, words)
  }

  ghost predicate SpellsSomeKey(text: string) {
    exists key :: Spells(32, text, key)
  }

  /** What a line says, in terms of its words: the first thing wrong with it, or the grant it makes. */
  ghost predicate Says(isKey: Bytes32 -> bool, words: seq<string>, meaning: LineMeaning) {
    match meaning
    case Blank => false
    case Bad(Malformed) => |words| != 3
    case Bad(UnsupportedVersion) => |words| == 3 && words[0] != "MESHLET-AUTHORIZATION/1"
    case Bad(InvalidNodeId) =>
      |words| == 3 && words[0] == "MESHLET-AUTHORIZATION/1" && !ValidNodeId(words[1])
    case Bad(InvalidHex) =>
      && |words| == 3 && words[0] == "MESHLET-AUTHORIZATION/1" && ValidNodeId(words[1])
      && !SpellsSomeKey(words[2])
    case Bad(InvalidKey) =>
      && |words| == 3 && words[0] == "MESHLET-AUTHORIZATION/1" && ValidNodeId(words[1])
      && exists key: Bytes32 :: Spells(32, words[2], key) && !isKey(key)
    case Grant(nodeId, key) =>
      && |words| == 3 && words[0] == "MESHLET-AUTHORIZATION/1" && words[1] == nodeId && ValidNodeId(nodeId)
      && Spells(32, words[2], key) && isKey(key)
  }

  lemma SaysOfFields(isKey: Bytes32 -> bool, line: string, meaning: LineMeaning)
    requires !Meaning(isKey, line).Blank?
    ensures Meaning(isKey, line) == meaning <==> Says(isKey, Fields(Trim(line)), meaning)
  {
    hide Fields, Trim, HexBytes, Spells, ValidNodeId;
    var words := Fields(Trim(line));
    if |words| == 3 {
      forall key: Bytes
        ensures HexBytes(32, words[2]) == Some(key) <==> Spells(32, words[2], key)
      {
        HexBytesExactly(32, words[2], key);
      }
    }
  }

  lemma WordsOfLine(isKey: Bytes32 -> bool, line: string, words: seq<string>)
    ensures HasWords(line, words) <==> !Meaning(isKey, line).Blank? && Fields(Trim(line)) == words
  {
    hide Fields, Trim, HexBytes, Spells, TrimsTo, SplitsInto;
    TrimExactly(line, Trim(line));
    FieldsExactly(Trim(line), words);
    if t :| TrimsTo(line, t) && t != "" && t[0] != '#' && SplitsInto(t, words) {
      TrimExactly(line, t);
    }
  }

  /** The meaning of every line that is not passed over. */
  lemma MeaningExactly(isKey: Bytes32 -> bool, line: string, meaning: LineMeaning)
    requires meaning != Blank
    ensures Meaning(isKey, line) == meaning <==> exists words :: HasWords(line, words) && Says(isKey, words, meaning)
  {
    hide Meaning, Says, HasWords, Fields, Trim;
    forall words
      ensures HasWords(line, words) <==> !Meaning(isKey, line).Blank? && Fields(Trim(line)) == words
    {
      WordsOfLine(isKey, line, words);
    }
    if !Meaning(isKey, line).Blank? {
      SaysOfFields(isKey, line, meaning);
      assert HasWords(line, Fields(Trim(line)));
    }
  }

  // ---------- Exactly which lines a text has ----------

  /** The pieces of a text without the carriage returns that end them. */
  function WithoutReturns(pieces: seq<string>): seq<string> {
    seq(|pieces|, i requires 0 <= i < |pieces| => StripReturn(pieces[i]))
  }

  /** Only a final carriage return is removed, and only one. */
  lemma StripReturnExactly(line: string, t: string)
    ensures StripReturn(line) == t <==> line == t + "\r" || (line == t && (t == "" || t[|t| - 1] != '\r'))
  {
    if line != "" && line[|line| - 1] == '\r' {
      assert line == line[..|line| - 1] + "\r";
    }
    if line == t + "\r" {
      assert line[..|line| - 1] == t;
    }
  }

  lemma LinesStep(piece: string, tail: string)
    requires IsLine(piece)
    ensures Lines(piece + "\n" + tail) == [StripReturn(piece)] + Lines(tail)
  {
    hide StripReturn, LineLength;
    var s := piece + "\n" + tail;
    LineLengthOfLine(piece, tail);
    assert s[..|piece|] == piece && s[|piece| + 1..] == tail;
  }

  lemma TerminatedThen(pieces: seq<string>, rest: string)
    requires pieces != []
    ensures Terminated(pieces) + rest == pieces[0] + "\n" + (Terminated(pieces[1..]) + rest)
  {
    ConcatAssociates(pieces[0] + "\n", Terminated(pieces[1..]), rest);
  }

  /** Every text is pieces ended by newlines and a rest without one; its lines are the pieces, without a
      carriage return at the end, and the rest as it is, unless it is empty. */
  lemma {:induction false} LinesExactly(pieces: seq<string>, rest: string)
    requires (forall p | p in pieces :: IsLine(p)) && IsLine(rest)
    ensures Lines(Terminated(pieces) + rest) == WithoutReturns(pieces) + (if rest == "" then [] else [rest])
  {
    hide StripReturn, IsLine, Lines;
    RestIsOneLine(rest);
    if pieces == [] {
      assert Terminated(pieces) + rest == rest;
    } else {
      TerminatedThen(pieces, rest);
      hide Terminated;
      LinesStep(pieces[0], Terminated(pieces[1..]) + rest);
      LinesExactly(pieces[1..], rest);
      assert WithoutReturns(pieces) == [StripReturn(pieces[0])] + WithoutReturns(pieces[1..]);
    }
  }

  lemma RestIsOneLine(rest: string)
    requires IsLine(rest)
    ensures Lines(rest) == if rest == "" then [] else [rest]
  {
    assert forall i | 0 <= i < |rest| :: rest[i] in rest;
    assert LineLength(rest) == |rest|;
  }

  /** Every text can be cut that way. */
  lemma {:induction false} CutIntoPieces(s: string) returns (pieces: seq<string>, rest: string)
    ensures (forall p | p in pieces :: IsLine(p)) && IsLine(rest) && s == Terminated(pieces) + rest
    decreases |s|
  {
    var n := LineLength(s);
    if n == |s| {
      pieces, rest := [], s;
      assert s[..n] == s;
    } else {
      pieces, rest := CutIntoPieces(s[n + 1..]);
      var first := s[..n];
      assert s == first + "\n" + s[n + 1..];
      assert ([first] + pieces)[1..] == pieces;
      pieces := [first] + pieces;
    }
  }

  /** An identity file is accepted exactly when it consists of the version, a valid ID and the secret. */
  lemma LoadIdentityExactly(contents: string, id: Identity)
    ensures LoadIdentity(contents) == Some(id) <==>
            exists secret :: SplitsInto(contents, ["MESHLET-IDENTITY/1", id.nodeId, secret]) && Spells(32, secret, id.signingKey)
  {
    hide Fields, SplitsInto, HexBytes, Spells, ValidNodeId;
    var f := Fields(contents);
    FieldsExactly(contents, f);
    if |f| == 3 {
      assert f == [f[0], f[1], f[2]];
      HexBytesExactly(32, f[2], id.signingKey);
    }
    forall secret | SplitsInto(contents, ["MESHLET-IDENTITY/1", id.nodeId, secret])
      ensures f == ["MESHLET-IDENTITY/1", id.nodeId, secret]
    {
      FieldsExactly(contents, ["MESHLET-IDENTITY/1", id.nodeId, secret]);
    }
  }
}
