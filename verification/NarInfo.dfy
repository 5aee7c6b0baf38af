/** The narinfo text served for an indexed path (iroh-nix/src/substituter.rs:217-245) and its parser
    (iroh-nix/src/http_cache.rs:76-176).
 */
module NarInfos {
  import opened Common
  import opened Wire
  import opened Text
  import opened Base32

  datatype Compression = NoCompression | Xz | Zstd | Bzip2

  function LowerChar(c: char): char { if 'A' <= c <= 'Z' then (c as int + 32) as char else c }

  function Lower(s: string): string { seq(|s|, i requires 0 <= i < |s| => LowerChar(s[i])) }

  /** http_cache.rs:42-50 */
  function CompressionOf(value: string): Compression {
    var v := Lower(value);
    if v == "xz" then Xz
    else if v == "zstd" then Zstd
    else if v == "bzip2" then Bzip2
    else if v == "none" then NoCompression
    else Bzip2
  }

  const STORE := "/nix/store/"

  datatype CacheNarInfo = CacheNarInfo(
    storePath: string,
    url: string,
    compression: Compression,
    narHash: seq<Byte>,
    narSize: nat,
    fileSize: Option<nat>,
    references: seq<string>,
    deriver: Option<string>)

  /** The parser's local variables. */
  datatype Fields = Fields(
    storePath: Option<string>,
    url: Option<string>,
    compression: Compression,
    narHash: Option<seq<Byte>>,
    narSize: Option<nat>,
    fileSize: Option<nat>,
    references: seq<string>,
    deriver: Option<string>)

  const START := Fields(None, None, Bzip2, None, None, None, [], None)

  // --- Hashes ------------------------------------------------------------------------------------------------

  function HexValue(c: char): Option<nat> {
    if '0' <= c <= '9' then Some(c as int - '0' as int)
    else if 'a' <= c <= 'f' then Some(c as int - 'a' as int + 10)
    else if 'A' <= c <= 'F' then Some(c as int - 'A' as int + 10)
    else None
  }

  function HexDecode(s: string): Option<seq<Byte>> {
    if s == "" then Some([])
    else if |s| == 1 then None
    else match (HexValue(s[0]), HexValue(s[1]), HexDecode(s[2..]))
      case (Some(h), Some(l), Some(rest)) => if h < 16 && l < 16 then Some([16 * h + l] + rest) else None
      case _ => None
  }

  /** base64 decoding is a library call; `sri` stands for it. */
  type Sri = string -> Option<seq<Byte>>

  /** http_cache.rs:145-176 */
  function ParsePrefixedSha256(s: string, sri: Sri): Option<seq<Byte>> {
    match StripPrefix(s, "sha256:")
    case Some(h) =>
      if Utf8Length(h) == 64 && (forall i :: 0 <= i < |h| ==> HexValue(h[i]).Some?) then HexDecode(h)
      else HttpHash(h)
    case None =>
      match StripPrefix(s, "sha256-")
      case Some(b64) => (match sri(b64) { case Some(b) => if |b| == 32 then Some(b) else None case None => None })
      case None => None
  }

  // --- The parser --------------------------------------------------------------------------------------------

  datatype Pair = Pair(key: string, value: string)

  /** http_cache.rs:86-95: blank lines, comments and lines without a colon say nothing. */
  function KeyValue(raw: string): Option<Pair> {
    var line := Trim(raw);
    if line == "" || line[0] == '#' then None
    else match SplitOnce(line, ':')
      case None => None
      case Some(p) => Some(Pair(Trim(p.0), Trim(p.1)))
  }

  function StorePaths(words: seq<string>): (r: seq<string>)
    ensures |r| == |words|
    ensures forall i :: 0 <= i < |r| ==> r[i] == STORE + words[i]
  {
    seq(|words|, i requires 0 <= i < |words| => STORE + words[i])
  }

  datatype Key = KStorePath | KUrl | KCompression | KNarHash | KNarSize | KFileSize | KReferences | KDeriver | KOther

  function KeyOf(key: string): Key {
    if key == "StorePath" then KStorePath
    else if key == "URL" then KUrl
    else if key == "Compression" then KCompression
    else if key == "NarHash" then KNarHash
    else if key == "NarSize" then KNarSize
    else if key == "FileSize" then KFileSize
    else if key == "References" then KReferences
    else if key == "Deriver" then KDeriver
    else KOther
  }

  /** http_cache.rs:97-124: one key; None is the early error return. */
  function Assign(f: Fields, p: Pair, sri: Sri): Option<Fields> {
    match KeyOf(p.key)
    case KStorePath => Some(f.(storePath := Some(p.value)))
    case KUrl => Some(f.(url := Some(p.value)))
    case KCompression => Some(f.(compression := CompressionOf(p.value)))
    case KNarHash =>
      (match ParsePrefixedSha256(p.value, sri)
       case None => None
       case Some(h) => Some(f.(narHash := Some(h))))
    case KNarSize => Some(f.(narSize := ParseU64(p.value)))
    case KFileSize => Some(f.(fileSize := ParseU64(p.value)))
    case KReferences => Some(f.(references := StorePaths(SplitWords(p.value))))
    case KDeriver =>
      if p.value != "" && p.value != "unknown-deriver" then Some(f.(deriver := Some(STORE + p.value))) else Some(f)
    case KOther => Some(f)
  }

  function AssignAll(f: Fields, ps: seq<Pair>, sri: Sri): Option<Fields>
    decreases |ps|
  {
    if ps == [] then Some(f)
    else match Assign(f, ps[0], sri)
      case None => None
      case Some(f') => AssignAll(f', ps[1..], sri)
  }

  function Pairs(lines: seq<string>): seq<Pair> {
    if lines == [] then []
    else (match KeyValue(lines[0]) { case Some(p) => [p] case None => [] }) + Pairs(lines[1..])
  }

  /** http_cache.rs:127-137 */
  function Finish(f: Fields): Option<CacheNarInfo> {
    if f.storePath.None? || f.url.None? || f.narHash.None? || f.narSize.None? then None
    else Some(CacheNarInfo(f.storePath.value, f.url.value, f.compression, f.narHash.value, f.narSize.value,
                           f.fileSize, f.references, f.deriver))
  }

  function ParsePairs(ps: seq<Pair>, sri: Sri): Option<CacheNarInfo> {
    match AssignAll(START, ps, sri)
    case None => None
    case Some(f) => Finish(f)
  }

  function ParseNarInfo(text: string, sri: Sri): Option<CacheNarInfo> { ParsePairs(Pairs(Lines(text)), sri) }

  /** http_cache.rs:76-138 */
  method Parse(text: string, sri: Sri) returns (r: Option<CacheNarInfo>)
    ensures r == ParseNarInfo(text, sri)
  {
    hide Assign, KeyValue, Lines;
    var fields := START;
    var lines := Lines(text);
    for i := 0 to |lines|
      invariant AssignAll(fields, Pairs(lines[i..]), sri) == AssignAll(START, Pairs(lines), sri)
    {
      assert lines[i..][1..] == lines[i + 1..];
      match KeyValue(lines[i]) {
        case None =>
          assert [] + Pairs(lines[i + 1..]) == Pairs(lines[i + 1..]);
        case Some(p) =>
          assert ([p] + Pairs(lines[i + 1..]))[1..] == Pairs(lines[i + 1..]);
          match Assign(fields, p, sri) {
            case None => return None;
            case Some(f) => fields := f;
          }
      }
    }
    r := Finish(fields);
  }

  // --- Lines that do not matter, and the order of the others -------------------------------------------------

  /** Blank, comment, no colon, or a key the parser ignores. */
  predicate Inert(line: string) {
    KeyValue(line).None? || KeyOf(KeyValue(line).value.key) == KOther
  }

  lemma {:induction false} AssignAllAppend(f: Fields, a: seq<Pair>, b: seq<Pair>, sri: Sri)
    ensures AssignAll(f, a + b, sri) ==
            match AssignAll(f, a, sri) { case None => None case Some(f') => AssignAll(f', b, sri) }
    decreases |a|
  {
    hide Assign;
    if a == [] {
      assert a + b == b;
    } else {
      assert (a + b)[1..] == a[1..] + b;
      if Assign(f, a[0], sri).Some? { AssignAllAppend(Assign(f, a[0], sri).value, a[1..], b, sri); }
    }
  }

  lemma {:induction false} PairsAppend(a: seq<string>, b: seq<string>)
    ensures Pairs(a + b) == Pairs(a) + Pairs(b)
  {
    hide KeyValue;
    if a == [] {
      assert a + b == b;
    } else {
      assert (a + b)[1..] == a[1..] + b;
      PairsAppend(a[1..], b);
    }
  }

  /** Blank lines, comments and lines without a colon say nothing. */
  lemma SilentExactly(line: string)
    ensures KeyValue(line).None? <==> Trim(line) == "" || Trim(line)[0] == '#' || ':' !in Trim(line)
  {
    SplitOncePieces(Trim(line), ':');
    if SplitOnce(Trim(line), ':').Some? {
      var p := SplitOnce(Trim(line), ':').value;
      assert (p.0 + [':'] + p.1)[|p.0|] == ':';
    }
  }

  /** Any other line says the part before its first colon and the part after it, both trimmed. */
  lemma SaysKeyAndValue(line: string, a: string, b: string)
    requires Trim(line) == a + ":" + b && ':' !in a && (a == "" || a[0] != '#')
    ensures KeyValue(line) == Some(Pair(Trim(a), Trim(b)))
  {
    hide Trim;
    SplitsOnce(a, ':', b);
    assert (a + ":" + b)[0] == if a == "" then ':' else a[0];
  }

  /** The eight keys that the parser knows. */
  lemma KnownKeys(key: string)
    ensures KeyOf(key) != KOther <==>
            key in ["StorePath", "URL", "Compression", "NarHash", "NarSize", "FileSize", "References", "Deriver"]
  {
  }

  /** Inserting an inert line anywhere does not change the result. */
  lemma InertLineIgnored(before: seq<string>, line: string, after: seq<string>, sri: Sri)
    requires Inert(line)
    ensures ParsePairs(Pairs(before + [line] + after), sri) == ParsePairs(Pairs(before + after), sri)
  {
    hide Assign, KeyValue, KeyOf;
    PairsAppend(before, after);
    PairsAppend(before + [line], after);
    PairsAppend(before, [line]);
    assert [line][1..] == [];
    if KeyValue(line).None? {
      assert Pairs([line]) == [];
      assert Pairs(before) + [] == Pairs(before);
    } else {
      var p := KeyValue(line).value;
      assert Pairs([line]) == [p];
      AssignAllAppend(START, Pairs(before), Pairs(after), sri);
      AssignAllAppend(START, Pairs(before) + [p], Pairs(after), sri);
      AssignAllAppend(START, Pairs(before), [p], sri);
      if AssignAll(START, Pairs(before), sri).Some? {
        OtherIgnored(AssignAll(START, Pairs(before), sri).value, p, sri);
        assert [p][1..] == [];
      }
    }
  }

  lemma OtherIgnored(f: Fields, p: Pair, sri: Sri)
    requires KeyOf(p.key) == KOther
    ensures Assign(f, p, sri) == Some(f)
  {
  }

  /** Different keys, or keys the parser ignores. */
  predicate Independent(a: Pair, b: Pair) { KeyOf(a.key) != KeyOf(b.key) || KeyOf(a.key) == KOther }

  function Both(f: Fields, a: Pair, b: Pair, sri: Sri): Option<Fields> {
    match Assign(f, a, sri) { case None => None case Some(f') => Assign(f', b, sri) }
  }

  lemma IndependentCommute(f: Fields, a: Pair, b: Pair, sri: Sri)
    requires Independent(a, b)
    ensures Both(f, a, b, sri) == Both(f, b, a, sri)
  {
    hide ParsePrefixedSha256, ParseU64, CompressionOf, SplitWords, StorePaths, KeyOf;
  }

  lemma {:induction false} MoveToFront(f: Fields, before: seq<Pair>, p: Pair, after: seq<Pair>, sri: Sri)
    requires forall q :: q in before ==> Independent(q, p)
    ensures AssignAll(f, before + [p] + after, sri) == AssignAll(f, [p] + before + after, sri)
    decreases |before|
  {
    hide Assign, Independent;
    if before == [] {
      assert before + [p] + after == [p] + before + after;
    } else {
      var a, rest := before[0], before[1..];
      var s, t := before + [p] + after, [p] + before + after;
      assert a in before;
      IndependentCommute(f, a, p, sri);
      assert s[1..] == rest + [p] + after && t[1..] == before + after && t[1..][1..] == rest + after;
      if Assign(f, a, sri).Some? {
        var f1 := Assign(f, a, sri).value;
        MoveToFront(f1, rest, p, after, sri);
        assert ([p] + rest + after)[1..] == rest + after;
      }
      assert s[0] == a && t[0] == p && t[1..][0] == a;
    }
  }

  ghost predicate DistinctKnownKeys(ps: seq<Pair>) {
    forall i, j :: 0 <= i < j < |ps| ==> Independent(ps[i], ps[j])
  }

  /** Permuting assignments whose known keys are distinct does not change the result, success or failure. */
  lemma {:induction false} OrderIrrelevant(f: Fields, ps: seq<Pair>, qs: seq<Pair>, sri: Sri)
    requires multiset(ps) == multiset(qs) && DistinctKnownKeys(ps)
    ensures AssignAll(f, ps, sri) == AssignAll(f, qs, sri)
    decreases |qs|
  {
    hide Assign, DistinctKnownKeys;
    if qs == [] {
      assert |multiset(ps)| == |ps| && |multiset(qs)| == |qs|;
    } else {
      var q := qs[0];
      assert q in multiset(ps);
      var i :| 0 <= i < |ps| && ps[i] == q;
      var rest := ps[..i] + ps[i + 1..];
      ToFront(f, ps, i, sri);
      assert ([q] + rest)[1..] == rest;
      SameRest(ps, i, qs);
      RestDistinct(ps, i);
      if Assign(f, q, sri).Some? { OrderIrrelevant(Assign(f, q, sri).value, rest, qs[1..], sri); }
    }
  }

  lemma ToFront(f: Fields, ps: seq<Pair>, i: nat, sri: Sri)
    requires i < |ps| && DistinctKnownKeys(ps)
    ensures AssignAll(f, ps, sri) == AssignAll(f, [ps[i]] + (ps[..i] + ps[i + 1..]), sri)
  {
    hide Assign, AssignAll, Independent;
    var before, after := ps[..i], ps[i + 1..];
    assert ps == before + [ps[i]] + after;
    MoveToFront(f, before, ps[i], after, sri);
    assert [ps[i]] + before + after == [ps[i]] + (before + after);
  }

  lemma RestDistinct(ps: seq<Pair>, i: nat)
    requires i < |ps| && DistinctKnownKeys(ps)
    ensures DistinctKnownKeys(ps[..i] + ps[i + 1..])
  {
    hide Independent;
    var rest := ps[..i] + ps[i + 1..];
    forall j, k | 0 <= j < k < |rest| ensures Independent(rest[j], rest[k]) {
      var j' := if j < i then j else j + 1;
      var k' := if k < i then k else k + 1;
      assert rest[j] == ps[j'] && rest[k] == ps[k'];
    }
  }

  /** Permuting lines permutes what they say. */
  lemma {:induction false} PairsPermute(a: seq<string>, b: seq<string>)
    requires multiset(a) == multiset(b)
    ensures multiset(Pairs(a)) == multiset(Pairs(b))
    decreases |b|
  {
    hide KeyValue;
    if b == [] {
      assert |multiset(a)| == |a| && |multiset(b)| == |b|;
    } else {
      assert b[0] in multiset(a);
      var i :| 0 <= i < |a| && a[i] == b[0];
      SameRest(a, i, b);
      PairsPermute(a[..i] + a[i + 1..], b[1..]);
      PairsAround(a, i);
      PairsAround(b, 0);
      assert b[..0] + b[1..] == b[1..];
    }
  }

  lemma PairsAround(a: seq<string>, i: nat)
    requires i < |a|
    ensures multiset(Pairs(a)) == multiset(Pairs(a[..i] + a[i + 1..])) + multiset(Pairs([a[i]]))
  {
    hide Pairs;
    var x, y, z := a[..i], [a[i]], a[i + 1..];
    assert a == x + (y + z);
    PairsAppend(x, y + z);
    PairsAppend(y, z);
    PairsAppend(x, z);
    assert multiset(Pairs(x) + (Pairs(y) + Pairs(z))) == multiset(Pairs(x)) + (multiset(Pairs(y)) + multiset(Pairs(z)));
  }

  /** Two texts with the same lines in any order, no known key twice, parse alike. */
  lemma LineOrderIrrelevant(a: string, b: string, sri: Sri)
    requires multiset(Lines(a)) == multiset(Lines(b)) && DistinctKnownKeys(Pairs(Lines(a)))
    ensures ParseNarInfo(a, sri) == ParseNarInfo(b, sri)
  {
    hide Pairs, Lines, AssignAll, DistinctKnownKeys, Finish;
    PairsPermute(Lines(a), Lines(b));
    OrderIrrelevant(START, Pairs(Lines(a)), Pairs(Lines(b)), sri);
  }

  /** An inert line anywhere in a text does not change what the text parses to. */
  lemma InertLineInText(a: string, b: string, before: seq<string>, line: string, after: seq<string>, sri: Sri)
    requires Lines(a) == before + [line] + after && Lines(b) == before + after && Inert(line)
    ensures ParseNarInfo(a, sri) == ParseNarInfo(b, sri)
  {
    hide Pairs, Lines, ParsePairs, Inert;
    InertLineIgnored(before, line, after, sri);
  }

  /** Printing lines in another order, with inert lines added in between, gives a text that parses alike. */
  lemma PrintedOrderIrrelevant(a: seq<string>, b: seq<string>, inert: seq<string>, sri: Sri)
    requires (forall l :: l in a ==> '\n' !in l) && (forall l :: l in b ==> '\n' !in l)
    requires multiset(b) == multiset(a + inert) && DistinctKnownKeys(Pairs(a)) && forall l :: l in inert ==> Inert(l)
    ensures ParseNarInfo(Unlines(b), sri) == ParseNarInfo(Unlines(a), sri)
  {
    hide Pairs, Lines, Unlines, AssignAll, Inert, DistinctKnownKeys, ParsePairs, Finish;
    LinesOfUnlines(a);
    LinesOfUnlines(b);
    InertTailIgnored(a, inert, sri);
    InertKeepsDistinct(a, inert);
    PairsPermute(a + inert, b);
    OrderIrrelevant(START, Pairs(a + inert), Pairs(b), sri);
    SameAssignments(Pairs(a + inert), Pairs(b), sri);
  }

  lemma SameAssignments(ps: seq<Pair>, qs: seq<Pair>, sri: Sri)
    requires AssignAll(START, ps, sri) == AssignAll(START, qs, sri)
    ensures ParsePairs(ps, sri) == ParsePairs(qs, sri)
  {
  }

  lemma {:induction false} InertTailIgnored(a: seq<string>, inert: seq<string>, sri: Sri)
    requires forall l :: l in inert ==> Inert(l)
    ensures ParsePairs(Pairs(a + inert), sri) == ParsePairs(Pairs(a), sri)
    decreases |inert|
  {
    hide Pairs, ParsePairs, Inert;
    if inert == [] {
      assert a + inert == a;
    } else {
      InertLineIgnored(a, inert[0], inert[1..], sri);
      assert a + [inert[0]] + inert[1..] == a + inert;
      InertTailIgnored(a, inert[1..], sri);
    }
  }

  /** Inert lines add no known key. */
  lemma {:induction false} InertKeepsDistinct(a: seq<string>, inert: seq<string>)
    requires DistinctKnownKeys(Pairs(a)) && forall l :: l in inert ==> Inert(l)
    ensures DistinctKnownKeys(Pairs(a + inert))
    decreases |inert|
  {
    hide KeyValue, KeyOf;
    if inert == [] {
      assert a + inert == a;
    } else {
      var line := inert[0];
      PairsAppend(a, [line]);
      assert [line][1..] == [];
      assert inert[0] in inert;
      InertKeepsDistinct(a + [line], inert[1..]);
      assert a + [line] + inert[1..] == a + inert;
    }
  }

  // --- The served text ---------------------------------------------------------------------------------------

  datatype HashEntry = HashEntry(
    blake3: Hash,
    sha256: Hash,
    storePath: string,
    narSize: nat,
    references: seq<string>,
    deriver: Option<string>)

  function HexDigit(n: nat): char
    requires n < 16
  {
    if n < 10 then ('0' as int + n) as char else ('a' as int + n - 10) as char
  }

  function Hex(bs: seq<Byte>): string {
    if bs == [] then "" else [HexDigit(bs[0] / 16), HexDigit(bs[0] % 16)] + Hex(bs[1..])
  }

  const HEX := "0123456789abcdef"

  lemma HexDigitIs(n: nat)
    requires n < 16
    ensures HexDigit(n) == HEX[n]
  {
  }

  /** Two lower-case digits per byte, high half first. */
  lemma {:induction false} HexDigitsAt(bs: seq<Byte>, i: nat)
    requires i < |bs|
    ensures |Hex(bs)| == 2 * |bs| && Hex(bs)[2 * i] == HEX[bs[i] / 16] && Hex(bs)[2 * i + 1] == HEX[bs[i] % 16]
  {
    HexDigitIs(bs[0] / 16);
    HexDigitIs(bs[0] % 16);
    hide HexDigit;
    HexLength(bs);
    if i > 0 { HexDigitsAt(bs[1..], i - 1); }
  }

  lemma {:induction false} HexLength(bs: seq<Byte>)
    ensures |Hex(bs)| == 2 * |bs|
  {
    if bs != [] { HexLength(bs[1..]); }
  }

  /** A character is a hex digit of this value exactly when it is that lower- or upper-case digit. */
  lemma HexValueIs(c: char, v: nat)
    ensures HexValue(c) == Some(v) <==> v < 16 && (c == HEX[v] || c == "0123456789ABCDEF"[v])
  {
  }

  /** The text spells the bytes in hex, in either case. */
  predicate SpellsHex(s: string, bs: seq<Byte>) {
    && |s| == 2 * |bs|
    && forall i :: 0 <= i < |bs| ==> HexValue(s[2 * i]) == Some(bs[i] / 16) && HexValue(s[2 * i + 1]) == Some(bs[i] % 16)
  }

  lemma {:induction false} HexDecodeExactly(s: string, bs: seq<Byte>)
    ensures HexDecode(s) == Some(bs) <==> SpellsHex(s, bs)
    decreases |s|
  {
    if s == "" || |s| == 1 || bs == [] {
      assert bs != [] || |s| == 0 || !SpellsHex(s, bs);
    } else {
      HexDecodeExactly(s[2..], bs[1..]);
      TwoDigits(s, bs[0]);
      hide HexValue;
      SpellsOneMore(s, bs);
      assert [bs[0]] + bs[1..] == bs;
    }
  }

  lemma TwoDigits(s: string, b: Byte)
    requires |s| >= 2
    ensures (HexValue(s[0]) == Some(b / 16) && HexValue(s[1]) == Some(b % 16)) <==>
            (HexValue(s[0]).Some? && HexValue(s[1]).Some? && 16 * HexValue(s[0]).value + HexValue(s[1]).value == b)
    ensures HexValue(s[0]).Some? ==> HexValue(s[0]).value < 16
    ensures HexValue(s[1]).Some? ==> HexValue(s[1]).value < 16
  {
  }

  lemma SpellsOneMore(s: string, bs: seq<Byte>)
    requires |s| >= 2 && bs != []
    ensures SpellsHex(s, bs) <==>
            HexValue(s[0]) == Some(bs[0] / 16) && HexValue(s[1]) == Some(bs[0] % 16) && SpellsHex(s[2..], bs[1..])
  {
    hide HexValue;
    if HexValue(s[0]) == Some(bs[0] / 16) && HexValue(s[1]) == Some(bs[0] % 16) && SpellsHex(s[2..], bs[1..]) {
      forall i | 0 <= i < |bs| ensures HexValue(s[2 * i]) == Some(bs[i] / 16) && HexValue(s[2 * i + 1]) == Some(bs[i] % 16) {
        if i > 0 { assert s[2 * i] == s[2..][2 * (i - 1)] && s[2 * i + 1] == s[2..][2 * (i - 1) + 1] && bs[i] == bs[1..][i - 1]; }
      }
    }
    if SpellsHex(s, bs) {
      var t, cs := s[2..], bs[1..];
      assert HexValue(s[2 * 0]) == Some(bs[0] / 16);
      forall i | 0 <= i < |cs| ensures HexValue(t[2 * i]) == Some(cs[i] / 16) && HexValue(t[2 * i + 1]) == Some(cs[i] % 16) {
        assert t[2 * i] == s[2 * (i + 1)] && t[2 * i + 1] == s[2 * (i + 1) + 1] && cs[i] == bs[i + 1];
      }
    }
  }

  lemma HexRoundTrip(bs: seq<Byte>)
    ensures HexDecode(Hex(bs)) == Some(bs)
  {
    hide HexDecode, Hex, HexValue;
    HexLength(bs);
    forall i | 0 <= i < |bs| ensures HexValue(Hex(bs)[2 * i]) == Some(bs[i] / 16) && HexValue(Hex(bs)[2 * i + 1]) == Some(bs[i] % 16) {
      HexDigitsAt(bs, i);
      HexValueIs(HEX[bs[i] / 16], bs[i] / 16);
      HexValueIs(HEX[bs[i] % 16], bs[i] % 16);
    }
    HexDecodeExactly(Hex(bs), bs);
  }

  /** hash_index.rs:386-388 */
  function Basename(path: string): Option<string> { StripPrefix(path, STORE) }

  /** hash_index.rs:391-396: paths outside the store are dropped. */
  function Basenames(paths: seq<string>): seq<string> {
    if paths == [] then []
    else (match Basename(paths[0]) { case Some(b) => [b] case None => [] }) + Basenames(paths[1..])
  }

  function DeriverLine(e: HashEntry): seq<string> {
    match e.deriver
    case None => []
    case Some(d) => (match Basename(d) { case Some(b) => ["Deriver" + ": " + b] case None => [] })
  }

  function BodyLines(e: HashEntry): seq<string> {
    ["StorePath" + ": " + e.storePath,
     "URL" + ": " + ("nar/" + Hex(e.blake3) + ".nar"),
     "Compression" + ": " + "none",
     "NarHash" + ": " + ("sha256:" + NixBase32(e.sha256)),
     "NarSize" + ": " + Decimal(e.narSize),
     "References" + ": " + JoinWords(Basenames(e.references))] + DeriverLine(e)
  }

  /** substituter.rs:217-245 */
  method HandleNarInfo(e: HashEntry) returns (body: string)
    ensures body == Unlines(BodyLines(e))
  {
    hide Hex, NixBase32, Decimal, JoinWords, Basenames;
    var base32 := ToNixBase32(e.sha256);
    var narHash := "sha256:" + base32;
    var references := JoinWords(Basenames(e.references));
    var l0 := "StorePath" + ": " + e.storePath;
    var l1 := "URL" + ": " + ("nar/" + Hex(e.blake3) + ".nar");
    var l2 := "Compression" + ": " + "none";
    var l3 := "NarHash" + ": " + narHash;
    var l4 := "NarSize" + ": " + Decimal(e.narSize);
    var l5 := "References" + ": " + references;
    body := l0 + "\n" + l1 + "\n" + l2 + "\n" + l3 + "\n" + l4 + "\n" + l5 + "\n";
    UnlinesSix(l0, l1, l2, l3, l4, l5, DeriverLine(e));
    assert forall l: string :: [l][1..] == [];
    if e.deriver.Some? {
      var base := Basename(e.deriver.value);
      if base.Some? { body := body + ("Deriver" + ": " + base.value + "\n"); }
    }
  }

  lemma UnlinesThree(a: string, b: string, c: string, more: seq<string>)
    ensures Unlines([a, b, c] + more) == a + "\n" + b + "\n" + c + "\n" + Unlines(more)
  {
    var all := [a, b, c] + more;
    assert all[1..] == [b, c] + more && all[1..][1..] == [c] + more && all[1..][1..][1..] == more;
    assert Unlines(all[1..][1..]) == c + "\n" + Unlines(more);
    assert Unlines(all[1..]) == b + "\n" + Unlines(all[1..][1..]);
  }

  lemma UnlinesSix(l0: string, l1: string, l2: string, l3: string, l4: string, l5: string, more: seq<string>)
    ensures Unlines([l0, l1, l2, l3, l4, l5] + more)
            == l0 + "\n" + l1 + "\n" + l2 + "\n" + l3 + "\n" + l4 + "\n" + l5 + "\n" + Unlines(more)
  {
    hide Unlines;
    UnlinesThree(l3, l4, l5, more);
    UnlinesThree(l0, l1, l2, [l3, l4, l5] + more);
    assert [l0, l1, l2, l3, l4, l5] + more == [l0, l1, l2] + ([l3, l4, l5] + more);
    var front, back := l0 + "\n" + l1 + "\n" + l2 + "\n", l3 + "\n" + l4 + "\n" + l5 + "\n" + Unlines(more);
    assert front + back == front + l3 + "\n" + l4 + "\n" + l5 + "\n" + Unlines(more);
  }

  // --- Round trip --------------------------------------------------------------------------------------------

  predicate NoNewline(s: string) { '\n' !in s }

  predicate PlainKey(key: string) {
    key != "" && key[0] != '#' && ':' !in key && forall i :: 0 <= i < |key| ==> !White(key[i])
  }

  /** A "key: value" line is read back as that key and value. */
  lemma KeyLineIsRead(key: string, v: string)
    requires PlainKey(key) && Trimmed(v)
    ensures KeyValue(key + ": " + v) == Some(Pair(key, v))
  {
    hide White;
    SpaceIsWhite();
    var raw := key + ": " + v;
    var tail := if v == "" then "" else " " + v;
    var line := key + [':'] + tail;
    assert Trim(raw) == line by {
      assert TrimStart(raw) == raw;
      if v == "" {
        assert raw[..|raw| - 1] == line;
        assert TrimEnd(raw) == TrimEnd(line);
      } else {
        assert raw == line;
      }
    }
    SplitsOnce(key, ':', tail);
    TrimTrims(key);
    TrimTrims(v);
    if v != "" {
      assert tail[1..] == v;
      assert TrimStart(tail) == TrimStart(v) == v;
    }
    assert Trim(tail) == v;
  }

  lemma SpaceIsWhite()
    ensures White(' ') && !White(':') && White('\n')
  {
  }

  predicate GoodReference(r: string) { STORE <= r && Word(r[|STORE|..]) }

  predicate GoodDeriver(d: string) {
    && STORE <= d
    && var b := d[|STORE|..]; b != "" && b != "unknown-deriver" && Trimmed(b) && NoNewline(b)
  }

  /** The entries whose served text says everything: a store path on one line without outer whitespace,
      references that are single words under the store, and a usable deriver. */
  predicate WellFormedEntry(e: HashEntry) {
    && Trimmed(e.storePath) && NoNewline(e.storePath)
    && (forall r :: r in e.references ==> GoodReference(r))
    && (e.deriver.Some? ==> GoodDeriver(e.deriver.value))
  }

  lemma {:induction false} BasenamesOfGood(refs: seq<string>)
    requires forall r :: r in refs ==> GoodReference(r)
    ensures |Basenames(refs)| == |refs|
    ensures forall i :: 0 <= i < |refs| ==> Word(Basenames(refs)[i]) && refs[i] == STORE + Basenames(refs)[i]
  {
    hide White;
    if refs != [] {
      BasenamesOfGood(refs[1..]);
      assert refs[0] in refs;
      assert refs[0] == STORE + refs[0][|STORE|..];
    }
  }

  /** References survive the space-separated basename encoding exactly when each is a single word under
      the store directory. */
  lemma ReferencesRestoredExactly(refs: seq<string>)
    ensures StorePaths(SplitWords(JoinWords(Basenames(refs)))) == refs <==> forall r :: r in refs ==> GoodReference(r)
  {
    hide White;
    if forall r :: r in refs ==> GoodReference(r) {
      BasenamesOfGood(refs);
      SplitInvertsJoin(Basenames(refs));
    }
    var back := StorePaths(SplitWords(JoinWords(Basenames(refs))));
    if back == refs {
      SplitYieldsWords(JoinWords(Basenames(refs)));
      StorePathsAreGood(SplitWords(JoinWords(Basenames(refs))));
    }
  }

  lemma StorePathsAreGood(words: seq<string>)
    requires forall w :: w in words ==> Word(w)
    ensures forall r :: r in StorePaths(words) ==> GoodReference(r)
  {
    hide White;
    forall r | r in StorePaths(words) ensures GoodReference(r) {
      var i :| 0 <= i < |words| && r == STORE + words[i];
      assert words[i] in words;
      assert r[|STORE|..] == words[i];
    }
  }

  // --- What any successful parse looks like -------------------------------------------------------------------

  ghost predicate CleanFields(f: Fields) {
    && (f.storePath.Some? ==> Trimmed(f.storePath.value) && NoNewline(f.storePath.value))
    && (forall r :: r in f.references ==> GoodReference(r))
    && (f.deriver.Some? ==> GoodDeriver(f.deriver.value))
  }

  ghost predicate CleanPair(p: Pair) { Trimmed(p.value) && NoNewline(p.value) }

  lemma KeyValueIsClean(line: string)
    requires NoNewline(line)
    ensures KeyValue(line).Some? ==> CleanPair(KeyValue(line).value)
  {
    hide White, Trim;
    var l := Trim(line);
    TrimTrims(line);
    if SplitOnce(l, ':').Some? {
      var p := SplitOnce(l, ':').value;
      SplitOncePieces(l, ':');
      TrimTrims(p.1);
    }
  }

  lemma {:induction false} PairsAreClean(lines: seq<string>)
    requires forall l :: l in lines ==> NoNewline(l)
    ensures forall p :: p in Pairs(lines) ==> CleanPair(p)
  {
    hide KeyValue, CleanPair, NoNewline;
    if lines != [] {
      assert lines[0] in lines;
      KeyValueIsClean(lines[0]);
      PairsAreClean(lines[1..]);
    }
  }

  lemma AssignKeepsClean(f: Fields, p: Pair, sri: Sri)
    requires CleanFields(f) && CleanPair(p)
    ensures Assign(f, p, sri).Some? ==> CleanFields(Assign(f, p, sri).value)
  {
    hide KeyOf, White, ParsePrefixedSha256, ParseU64, CompressionOf, SplitWords, StorePaths, GoodReference;
    SplitYieldsWords(p.value);
    StorePathsAreGood(SplitWords(p.value));
    assert (STORE + p.value)[|STORE|..] == p.value;
  }

  lemma {:induction false} AssignAllKeepsClean(f: Fields, ps: seq<Pair>, sri: Sri)
    requires CleanFields(f) && forall p :: p in ps ==> CleanPair(p)
    ensures AssignAll(f, ps, sri).Some? ==> CleanFields(AssignAll(f, ps, sri).value)
    decreases |ps|
  {
    hide Assign, CleanFields, CleanPair;
    if ps != [] {
      assert ps[0] in ps;
      AssignKeepsClean(f, ps[0], sri);
      if Assign(f, ps[0], sri).Some? { AssignAllKeepsClean(Assign(f, ps[0], sri).value, ps[1..], sri); }
    }
  }

  /** Any text at all: a successful parse has a one-line store path, single-word references and a usable
      deriver. */
  lemma ParsedIsClean(text: string, sri: Sri)
    ensures ParseNarInfo(text, sri).Some? ==>
              var i := ParseNarInfo(text, sri).value;
              && Trimmed(i.storePath) && NoNewline(i.storePath)
              && (forall r :: r in i.references ==> GoodReference(r))
              && (i.deriver.Some? ==> GoodDeriver(i.deriver.value))
  {
    hide White, GoodReference, GoodDeriver, Trimmed, Lines, Pairs, Assign;
    LinesHaveNoNewline(text);
    PairsAreClean(Lines(text));
    AssignAllKeepsClean(START, Pairs(Lines(text)), sri);
  }

  // --- The served text, read back ------------------------------------------------------------------------------

  function Served(e: HashEntry): CacheNarInfo {
    CacheNarInfo(e.storePath, "nar/" + Hex(e.blake3) + ".nar", NoCompression, e.sha256, e.narSize, None, e.references, e.deriver)
  }

  function BodyPairs(e: HashEntry): seq<Pair> {
    [Pair("StorePath", e.storePath),
     Pair("URL", "nar/" + Hex(e.blake3) + ".nar"),
     Pair("Compression", "none"),
     Pair("NarHash", "sha256:" + NixBase32(e.sha256)),
     Pair("NarSize", Decimal(e.narSize)),
     Pair("References", JoinWords(Basenames(e.references)))]
    + (if e.deriver.Some? && STORE <= e.deriver.value then [Pair("Deriver", e.deriver.value[|STORE|..])] else [])
  }

  lemma {:induction false} HexIsPlain(bs: seq<Byte>)
    ensures NoNewline(Hex(bs))
  {
    if bs != [] { HexIsPlain(bs[1..]); }
  }

  lemma LettersArePlain(s: string)
    requires IsBase32(s)
    ensures NoNewline(s) && Ascii(s) && (s != "" ==> !White(s[|s| - 1]))
  {
    forall i | 0 <= i < |s| ensures s[i] as int < 128 && !White(s[i]) {
      assert s[i] in s;
      var d :| 0 <= d < 32 && ALPHABET[d] == s[i];
      DigitOfLetter(d);
      LetterNotWhite(d);
    }
    NewlineIsWhite(s);
  }

  lemma NewlineIsWhite(s: string)
    requires forall i :: 0 <= i < |s| ==> !White(s[i])
    ensures NoNewline(s)
  {
  }

  lemma LetterNotWhite(d: Digit)
    ensures !White(ALPHABET[d])
  {
    assert ALPHABET[0] == '0' && ALPHABET[31] == 'z';
    if d > 0 { AlphabetAscends(0, d); }
    if d < 31 { AlphabetAscends(d, 31); }
  }

  lemma DecimalIsPlain(n: nat)
    ensures Trimmed(Decimal(n)) && NoNewline(Decimal(n))
  {
    DecimalDigits(n);
    var s := Decimal(n);
    assert IsDigit(s[0]) && IsDigit(s[|s| - 1]);
  }

  lemma ServedHashIsRead(h: Hash, sri: Sri)
    ensures ParsePrefixedSha256("sha256:" + NixBase32(h), sri) == Some(h)
  {
    hide HexValue, Value32, Digits, LE, FromLE, White, NixBase32;
    var s := NixBase32(h);
    NixBase32Encodes(h);
    LettersArePlain(s);
    AsciiLength(s);
    DecodeInvertsEncode(s, h);
    assert ("sha256:" + s)[|"sha256:"|..] == s;
  }

  lemma NoneIsNone()
    ensures CompressionOf("none") == NoCompression
  {
    assert Lower("none") == "none";
  }

  lemma KeysArePlain()
    ensures PlainKey("StorePath") && PlainKey("URL") && PlainKey("Compression") && PlainKey("NarHash")
    ensures PlainKey("NarSize") && PlainKey("References") && PlainKey("Deriver")
  {
    LongKeysArePlain();
  }

  lemma LongKeysArePlain()
    ensures PlainKey("StorePath") && PlainKey("Compression") && PlainKey("References")
  {
  }

  function LinesOf(ps: seq<Pair>): seq<string> {
    seq(|ps|, i requires 0 <= i < |ps| => ps[i].key + ": " + ps[i].value)
  }

  lemma {:induction false} LinesOfAreRead(ps: seq<Pair>)
    requires forall p :: p in ps ==> PlainKey(p.key) && CleanPair(p)
    ensures Pairs(LinesOf(ps)) == ps && forall l :: l in LinesOf(ps) ==> NoNewline(l)
  {
    hide KeyValue, PlainKey, Trimmed, White;
    if ps != [] {
      var p := ps[0];
      assert p in ps;
      LinesOfAreRead(ps[1..]);
      KeyLineIsRead(p.key, p.value);
      PlainKeyNoNewline(p.key);
      assert LinesOf(ps)[1..] == LinesOf(ps[1..]);
      assert ps == [p] + ps[1..];
    }
  }

  lemma PlainKeyNoNewline(key: string)
    requires PlainKey(key)
    ensures NoNewline(key)
  {
    NewlineIsWhite(key);
  }

  lemma BodyLinesAreBodyPairs(e: HashEntry)
    ensures BodyLines(e) == LinesOf(BodyPairs(e))
  {
    hide Hex, NixBase32, Decimal, JoinWords, Basenames;
    var ps, ls := BodyPairs(e), BodyLines(e);
    assert |ls| == |ps|;
    forall i | 0 <= i < |ps| ensures ls[i] == LinesOf(ps)[i] { }
  }

  lemma BodyPairsAreClean(e: HashEntry)
    requires WellFormedEntry(e)
    ensures forall p :: p in BodyPairs(e) ==> PlainKey(p.key) && CleanPair(p)
  {
    hide White, Hex, NixBase32, Decimal, JoinWords, Basenames, PlainKey, GoodReference;
    KeysArePlain();
    UrlIsClean(e.blake3);
    HashTextIsClean(e.sha256);
    DecimalIsPlain(e.narSize);
    ReferenceTextIsClean(e.references);
    NoneIsClean();
  }

  lemma UrlIsClean(bs: seq<Byte>)
    ensures Trimmed("nar/" + Hex(bs) + ".nar") && NoNewline("nar/" + Hex(bs) + ".nar")
  {
    HexIsPlain(bs);
  }

  lemma HashTextIsClean(h: Hash)
    ensures Trimmed("sha256:" + NixBase32(h)) && NoNewline("sha256:" + NixBase32(h))
  {
    NixBase32Encodes(h);
    LettersArePlain(NixBase32(h));
  }

  lemma ReferenceTextIsClean(refs: seq<string>)
    requires forall r :: r in refs ==> GoodReference(r)
    ensures Trimmed(JoinWords(Basenames(refs))) && NoNewline(JoinWords(Basenames(refs)))
  {
    hide White;
    BasenamesOfGood(refs);
    JoinedWordsAreTrimmed(Basenames(refs));
  }

  lemma NoneIsClean()
    ensures Trimmed("none") && NoNewline("none")
  {
  }

  lemma AssignNext(f: Fields, ps: seq<Pair>, i: nat, f': Fields, sri: Sri)
    requires i < |ps| && Assign(f, ps[i], sri) == Some(f')
    ensures AssignAll(f, ps[i..], sri) == AssignAll(f', ps[i + 1..], sri)
  {
    assert ps[i..][1..] == ps[i + 1..] && ps[i..][0] == ps[i];
  }

  /** The fields after the six lines that every entry has. */
  function FixedFields(e: HashEntry): Fields {
    Fields(Some(e.storePath), Some("nar/" + Hex(e.blake3) + ".nar"), NoCompression, Some(e.sha256), Some(e.narSize), None, e.references, None)
  }

  lemma FixedPairsAreAssigned(e: HashEntry, sri: Sri)
    requires WellFormedEntry(e) && e.narSize < U64
    ensures AssignAll(START, BodyPairs(e), sri) == AssignAll(FixedFields(e), BodyPairs(e)[6..], sri)
  {
    hide White, Hex, NixBase32, Decimal, JoinWords, Basenames, GoodReference, ParsePrefixedSha256, ParseU64, CompressionOf, SplitWords, StorePaths, AssignAll;
    var ps := BodyPairs(e);
    NoneIsNone();
    ServedHashIsRead(e.sha256, sri);
    ParsesDecimal(e.narSize);
    ReferencesRestoredExactly(e.references);
    var f1 := START.(storePath := Some(e.storePath));
    var f2 := f1.(url := Some("nar/" + Hex(e.blake3) + ".nar"));
    var f3 := f2.(compression := NoCompression);
    var f4 := f3.(narHash := Some(e.sha256));
    var f5 := f4.(narSize := Some(e.narSize));
    assert ps[0..] == ps;
    AssignNext(START, ps, 0, f1, sri);
    AssignNext(f1, ps, 1, f2, sri);
    AssignNext(f2, ps, 2, f3, sri);
    AssignNext(f3, ps, 3, f4, sri);
    AssignNext(f4, ps, 4, f5, sri);
    AssignNext(f5, ps, 5, FixedFields(e), sri);
  }

  lemma BodyPairsAreAssigned(e: HashEntry, sri: Sri)
    requires WellFormedEntry(e) && e.narSize < U64
    ensures AssignAll(START, BodyPairs(e), sri) == Some(FixedFields(e).(deriver := e.deriver))
  {
    hide White, Hex, NixBase32, Decimal, JoinWords, Basenames, GoodReference, AssignAll, FixedFields;
    var ps, f := BodyPairs(e), FixedFields(e);
    FixedPairsAreAssigned(e, sri);
    assert f.deriver == None by { FixedHasNoDeriver(e); }
    if e.deriver.Some? {
      var d := e.deriver.value;
      assert d == STORE + d[|STORE|..];
      AssignNext(f, ps, 6, f.(deriver := Some(d)), sri);
      AssignNone(f.(deriver := Some(d)), ps[7..], sri);
    } else {
      AssignNone(f, ps[6..], sri);
    }
  }

  lemma FixedHasNoDeriver(e: HashEntry)
    ensures FixedFields(e).deriver == None
  {
  }

  lemma AssignNone(f: Fields, ps: seq<Pair>, sri: Sri)
    requires ps == []
    ensures AssignAll(f, ps, sri) == Some(f)
  {
  }

  /** Parsing the text served for an entry gives back its store path, hash, size, references and deriver,
      uncompressed, exactly when the entry is well formed. */
  lemma NarInfoRoundTripExactly(e: HashEntry, sri: Sri)
    requires e.narSize < U64
    ensures ParseNarInfo(Unlines(BodyLines(e)), sri) == Some(Served(e)) <==> WellFormedEntry(e)
  {
    hide White, Hex, NixBase32, Decimal, JoinWords, Basenames, GoodReference, GoodDeriver, Trimmed, NoNewline, Lines, Pairs, AssignAll, BodyLines, BodyPairs, PlainKey, CleanPair;
    if WellFormedEntry(e) {
      BodyPairsAreClean(e);
      LinesOfAreRead(BodyPairs(e));
      BodyLinesAreBodyPairs(e);
      NoNewlineLines(BodyLines(e));
      LinesOfUnlines(BodyLines(e));
      BodyPairsAreAssigned(e, sri);
    }
    if ParseNarInfo(Unlines(BodyLines(e)), sri) == Some(Served(e)) {
      ParsedIsClean(Unlines(BodyLines(e)), sri);
    }
  }

  lemma NoNewlineLines(ls: seq<string>)
    requires forall l :: l in ls ==> NoNewline(l)
    ensures forall l :: l in ls ==> '\n' !in l
  {
  }

  // --- Every record can be written and read back ----------------------------------------------------------------

  function NameOf(c: Compression): string {
    match c
    case NoCompression => "none"
    case Xz => "xz"
    case Zstd => "zstd"
    case Bzip2 => "bzip2"
  }

  /** The text is the name of this compression, in any letter case. */
  predicate Names(v: string, c: Compression) {
    && |v| == |NameOf(c)|
    && forall k :: 0 <= k < |v| ==>
         v[k] == NameOf(c)[k] || ('a' <= NameOf(c)[k] <= 'z' && v[k] as int == NameOf(c)[k] as int - 32)
  }

  lemma LowerNames(v: string, c: Compression)
    ensures Lower(v) == NameOf(c) <==> Names(v, c)
  {
    NameIsLower(c);
    var n := NameOf(c);
    hide NameOf;
    if Lower(v) == n {
      forall k | 0 <= k < |v| ensures v[k] == n[k] || ('a' <= n[k] <= 'z' && v[k] as int == n[k] as int - 32) {
        assert Lower(v)[k] == n[k];
      }
    }
    if Names(v, c) {
      forall k | 0 <= k < |v| ensures Lower(v)[k] == n[k] {}
    }
  }

  lemma NameIsLower(c: Compression)
    ensures forall k :: 0 <= k < |NameOf(c)| ==> 'a' <= NameOf(c)[k] <= 'z' || NameOf(c)[k] == '2'
  {
  }

  /** A compression is read exactly from its name in any letter case; anything else means bzip2. */
  lemma CompressionExactly(v: string, c: Compression)
    ensures CompressionOf(v) == c <==> Names(v, c) || (c == Bzip2 && forall d :: !Names(v, d))
  {
    hide Names, Lower;
    forall d ensures Names(v, d) <==> Lower(v) == NameOf(d) { LowerNames(v, d); }
    assert NameOf(NoCompression) == "none" && NameOf(Xz) == "xz" && NameOf(Zstd) == "zstd" && NameOf(Bzip2) == "bzip2";
    assert "none"[0] != "zstd"[0];
    assert !Names(v, NoCompression) && !Names(v, Xz) && !Names(v, Zstd) && !Names(v, Bzip2) ==> forall d :: !Names(v, d);
  }

  /** The text says this hash: in base 32, in 64 hex digits of either case, or in SRI form. */
  ghost predicate SpellsHash(t: string, h: Hash, sri: Sri) {
    || t == "sha256:" + NixBase32(h)
    || (exists d :: t == "sha256:" + d && SpellsHex(d, h))
    || (exists d :: t == "sha256-" + d && sri(d) == Some(h) && Trimmed(t) && NoNewline(t))
  }

  lemma {:induction false} HexTextIsPlain(d: string)
    requires forall i :: 0 <= i < |d| ==> HexValue(d[i]).Some?
    ensures Utf8Length(d) == |d| && NoNewline(d) && (d != "" ==> !White(d[|d| - 1]))
  {
    forall i | 0 <= i < |d| ensures d[i] as int < 128 && !White(d[i]) { assert HexValue(d[i]).Some?; }
    AsciiLength(d);
    NewlineIsWhite(d);
  }

  lemma SpelledHex(d: string, bs: seq<Byte>)
    requires SpellsHex(d, bs)
    ensures forall i :: 0 <= i < |d| ==> HexValue(d[i]).Some?
  {
    hide HexValue;
    forall i | 0 <= i < |d| ensures HexValue(d[i]).Some? {
      assert i == 2 * (i / 2) || i == 2 * (i / 2) + 1;
      assert 0 <= i / 2 < |bs|;
      assert HexValue(d[2 * (i / 2)]).Some? && HexValue(d[2 * (i / 2) + 1]).Some?;
    }
  }

  lemma HexHashIsRead(d: string, h: Hash, sri: Sri)
    requires SpellsHex(d, h)
    ensures ParsePrefixedSha256("sha256:" + d, sri) == Some(h) && Trimmed("sha256:" + d) && NoNewline("sha256:" + d)
  {
    hide HexValue, HexDecode, White, SpellsHex, Utf8Length, HttpHash;
    assert |d| == 64 by { SpelledLength(d, h); }
    SpelledHex(d, h);
    HexTextIsPlain(d);
    HexDecodeExactly(d, h);
    assert ("sha256:" + d)[|"sha256:"|..] == d;
    PlainStart();
  }

  lemma SpelledLength(d: string, bs: seq<Byte>)
    requires SpellsHex(d, bs)
    ensures |d| == 2 * |bs|
  {
  }

  lemma PlainStart()
    ensures !White('s') && NoNewline("sha256:")
  {
  }

  lemma SriHashIsRead(d: string, h: Hash, sri: Sri)
    requires sri(d) == Some(h)
    ensures ParsePrefixedSha256("sha256-" + d, sri) == Some(h)
  {
    hide HexValue, HexDecode, HttpHash, Utf8Length;
    var t := "sha256-" + d;
    assert t[6] == '-' && "sha256:"[6] == ':';
    assert t[|"sha256-"|..] == d;
  }

  lemma SpelledHashIsRead(t: string, h: Hash, sri: Sri)
    requires SpellsHash(t, h, sri)
    ensures ParsePrefixedSha256(t, sri) == Some(h) && Trimmed(t) && NoNewline(t)
  {
    hide ParsePrefixedSha256, NixBase32, SpellsHex, White, Trimmed;
    if t == "sha256:" + NixBase32(h) {
      ServedHashIsRead(h, sri);
      HashTextIsClean(h);
    } else if d :| t == "sha256:" + d && SpellsHex(d, h) {
      HexHashIsRead(d, h, sri);
    } else {
      var d :| t == "sha256-" + d && sri(d) == Some(h) && Trimmed(t) && NoNewline(t);
      SriHashIsRead(d, h, sri);
    }
  }

  /** How a record is spelled where there is a choice. */
  datatype Spelling = Spelling(compression: Option<string>, hash: string, deriver: Option<string>)

  function Optional(key: string, value: Option<string>): seq<Pair> {
    match value { case Some(v) => [Pair(key, v)] case None => [] }
  }

  function SizeText(n: Option<nat>): Option<string> { match n { case Some(k) => Some(Decimal(k)) case None => None } }

  function InfoPairs(i: CacheNarInfo, sp: Spelling): seq<Pair> {
    [Pair("StorePath", i.storePath), Pair("URL", i.url)] + Optional("Compression", sp.compression)
    + [Pair("NarHash", sp.hash), Pair("NarSize", Decimal(i.narSize))] + Optional("FileSize", SizeText(i.fileSize))
    + [Pair("References", JoinWords(Basenames(i.references)))] + Optional("Deriver", sp.deriver)
  }

  predicate Clean(v: string) { Trimmed(v) && NoNewline(v) }

  ghost predicate SpellsCompression(v: Option<string>, c: Compression) {
    match v
    case None => c == Bzip2
    case Some(t) => Clean(t) && (Names(t, c) || (c == Bzip2 && forall d :: !Names(t, d)))
  }

  predicate SpellsDeriver(v: Option<string>, d: Option<string>) {
    match v
    case None => d == None
    case Some(b) => Clean(b) && d == if b == "" || b == "unknown-deriver" then None else Some(STORE + b)
  }

  /** The spelling says what the record holds, and the record can be said at all. */
  ghost predicate Spells(i: CacheNarInfo, sp: Spelling, sri: Sri) {
    && Clean(i.storePath) && Clean(i.url)
    && |i.narHash| == 32 && SpellsHash(sp.hash, i.narHash, sri)
    && i.narSize < U64 && (i.fileSize.Some? ==> i.fileSize.value < U64)
    && (forall r :: r in i.references ==> GoodReference(r))
    && SpellsCompression(sp.compression, i.compression) && SpellsDeriver(sp.deriver, i.deriver)
  }

  /** Two runs of assignments, one after the other. */
  lemma AssignBoth(f: Fields, a: seq<Pair>, f1: Fields, b: seq<Pair>, f2: Fields, sri: Sri)
    requires AssignAll(f, a, sri) == Some(f1) && AssignAll(f1, b, sri) == Some(f2)
    ensures AssignAll(f, a + b, sri) == Some(f2)
  {
    hide AssignAll;
    AssignAllAppend(f, a, b, sri);
  }

  lemma AssignOne(f: Fields, p: Pair, sri: Sri)
    ensures AssignAll(f, [p], sri) == Assign(f, p, sri)
  {
    hide Assign;
    assert [p][1..] == [];
  }

  lemma CompressionAssigned(f: Fields, v: Option<string>, c: Compression, sri: Sri)
    requires SpellsCompression(v, c) && f.compression == Bzip2
    ensures AssignAll(f, Optional("Compression", v), sri) == Some(f.(compression := c))
  {
    hide CompressionOf, Names, AssignAll, Clean;
    if v.Some? {
      CompressionExactly(v.value, c);
      AssignOne(f, Pair("Compression", v.value), sri);
    } else {
      AssignNone(f, [], sri);
    }
  }

  lemma DeriverAssigned(f: Fields, v: Option<string>, d: Option<string>, sri: Sri)
    requires SpellsDeriver(v, d) && f.deriver == None
    ensures AssignAll(f, Optional("Deriver", v), sri) == Some(f.(deriver := d))
  {
    hide AssignAll, Clean;
    if v.Some? { AssignOne(f, Pair("Deriver", v.value), sri); } else { AssignNone(f, [], sri); }
  }

  lemma FileSizeAssigned(f: Fields, n: Option<nat>, sri: Sri)
    requires (n.Some? ==> n.value < U64) && f.fileSize == None
    ensures AssignAll(f, Optional("FileSize", SizeText(n)), sri) == Some(f.(fileSize := n))
  {
    hide AssignAll, Decimal, ParseU64;
    if n.Some? {
      ParsesDecimal(n.value);
      AssignOne(f, Pair("FileSize", Decimal(n.value)), sri);
    } else {
      AssignNone(f, [], sri);
    }
  }

  lemma PathsAssigned(path: string, url: string, sri: Sri)
    ensures AssignAll(START, [Pair("StorePath", path), Pair("URL", url)], sri) == Some(START.(storePath := Some(path), url := Some(url)))
  {
    hide AssignAll;
    AssignOne(START, Pair("StorePath", path), sri);
    AssignOne(START.(storePath := Some(path)), Pair("URL", url), sri);
    AssignBoth(START, [Pair("StorePath", path)], START.(storePath := Some(path)), [Pair("URL", url)],
               START.(storePath := Some(path), url := Some(url)), sri);
    assert [Pair("StorePath", path)] + [Pair("URL", url)] == [Pair("StorePath", path), Pair("URL", url)];
  }

  lemma HashAssigned(f: Fields, t: string, h: Hash, n: nat, sri: Sri)
    requires SpellsHash(t, h, sri) && n < U64
    ensures AssignAll(f, [Pair("NarHash", t), Pair("NarSize", Decimal(n))], sri) == Some(f.(narHash := Some(h), narSize := Some(n)))
  {
    hide AssignAll, Decimal, ParseU64, ParsePrefixedSha256, SpellsHash;
    SpelledHashIsRead(t, h, sri);
    ParsesDecimal(n);
    AssignOne(f, Pair("NarHash", t), sri);
    AssignOne(f.(narHash := Some(h)), Pair("NarSize", Decimal(n)), sri);
    AssignBoth(f, [Pair("NarHash", t)], f.(narHash := Some(h)), [Pair("NarSize", Decimal(n))],
               f.(narHash := Some(h), narSize := Some(n)), sri);
    assert [Pair("NarHash", t)] + [Pair("NarSize", Decimal(n))] == [Pair("NarHash", t), Pair("NarSize", Decimal(n))];
  }

  lemma ReferencesAssigned(f: Fields, refs: seq<string>, sri: Sri)
    requires forall r :: r in refs ==> GoodReference(r)
    ensures AssignAll(f, [Pair("References", JoinWords(Basenames(refs)))], sri) == Some(f.(references := refs))
  {
    hide AssignAll, JoinWords, Basenames, SplitWords, StorePaths, GoodReference;
    ReferencesRestoredExactly(refs);
    AssignOne(f, Pair("References", JoinWords(Basenames(refs))), sri);
  }

  lemma InfoPairsAreAssigned(i: CacheNarInfo, sp: Spelling, sri: Sri)
    requires Spells(i, sp, sri)
    ensures ParsePairs(InfoPairs(i, sp), sri) == Some(i)
  {
    hide AssignAll, Assign, Decimal, SpellsHash, SpellsCompression, SpellsDeriver, Optional, SizeText, JoinWords, Basenames, GoodReference, Clean;
    var p1 := [Pair("StorePath", i.storePath), Pair("URL", i.url)];
    var p2 := Optional("Compression", sp.compression);
    var p3 := [Pair("NarHash", sp.hash), Pair("NarSize", Decimal(i.narSize))];
    var p4 := Optional("FileSize", SizeText(i.fileSize));
    var p5 := [Pair("References", JoinWords(Basenames(i.references)))];
    var f1 := START.(storePath := Some(i.storePath), url := Some(i.url));
    var f2 := f1.(compression := i.compression);
    var f3 := f2.(narHash := Some(i.narHash), narSize := Some(i.narSize));
    var f4 := f3.(fileSize := i.fileSize);
    var f5 := f4.(references := i.references);
    PathsAssigned(i.storePath, i.url, sri);
    CompressionAssigned(f1, sp.compression, i.compression, sri);
    AssignBoth(START, p1, f1, p2, f2, sri);
    HashAssigned(f2, sp.hash, i.narHash, i.narSize, sri);
    AssignBoth(START, p1 + p2, f2, p3, f3, sri);
    FileSizeAssigned(f3, i.fileSize, sri);
    AssignBoth(START, p1 + p2 + p3, f3, p4, f4, sri);
    ReferencesAssigned(f4, i.references, sri);
    AssignBoth(START, p1 + p2 + p3 + p4, f4, p5, f5, sri);
    DeriverAssigned(f5, sp.deriver, i.deriver, sri);
    AssignBoth(START, p1 + p2 + p3 + p4 + p5, f5, Optional("Deriver", sp.deriver), f5.(deriver := i.deriver), sri);
  }

  lemma InfoPairsAreClean(i: CacheNarInfo, sp: Spelling, sri: Sri)
    requires Spells(i, sp, sri)
    ensures forall p :: p in InfoPairs(i, sp) ==> PlainKey(p.key) && CleanPair(p)
  {
    hide White, Decimal, JoinWords, Basenames, PlainKey, GoodReference, SpellsHash, Names, CleanPair, InfoPairs;
    KeysArePlain();
    FileSizeIsPlain();
    SpelledHashIsRead(sp.hash, i.narHash, sri);
    DecimalIsPlain(i.narSize);
    if i.fileSize.Some? { DecimalIsPlain(i.fileSize.value); }
    ReferenceTextIsClean(i.references);
    ListedPairs(i, sp);
    forall p | p in InfoPairs(i, sp) ensures PlainKey(p.key) && CleanPair(p) { CleanIsClean(p); }
  }

  /** The pairs of a record, one by one. */
  lemma ListedPairs(i: CacheNarInfo, sp: Spelling)
    ensures forall p :: p in InfoPairs(i, sp) ==>
              || p == Pair("StorePath", i.storePath) || p == Pair("URL", i.url)
              || (sp.compression.Some? && p == Pair("Compression", sp.compression.value))
              || p == Pair("NarHash", sp.hash) || p == Pair("NarSize", Decimal(i.narSize))
              || (i.fileSize.Some? && p == Pair("FileSize", Decimal(i.fileSize.value)))
              || p == Pair("References", JoinWords(Basenames(i.references)))
              || (sp.deriver.Some? && p == Pair("Deriver", sp.deriver.value))
  {
    hide Decimal, JoinWords, Basenames;
  }

  lemma CleanIsClean(p: Pair)
    ensures CleanPair(p) <==> Clean(p.value)
  {
  }

  lemma FileSizeIsPlain()
    ensures PlainKey("FileSize")
  {
  }

  lemma InfoKeysAreDistinct(i: CacheNarInfo, sp: Spelling)
    ensures DistinctKnownKeys(InfoPairs(i, sp))
  {
    Ranks();
    hide Ascending, KeyRank, DistinctKnownKeys, Decimal, JoinWords, Basenames, SizeText, Optional;
    var p1, p3 := [Pair("StorePath", i.storePath), Pair("URL", i.url)], [Pair("NarHash", sp.hash), Pair("NarSize", Decimal(i.narSize))];
    var p2, p4 := Optional("Compression", sp.compression), Optional("FileSize", SizeText(i.fileSize));
    var p5, p6 := [Pair("References", JoinWords(Basenames(i.references)))], Optional("Deriver", sp.deriver);
    OneAscends("StorePath", i.storePath, 0);
    OneAscends("URL", i.url, 1);
    AscendingBoth([Pair("StorePath", i.storePath)], 0, 1, [Pair("URL", i.url)], 2);
    assert [Pair("StorePath", i.storePath)] + [Pair("URL", i.url)] == p1;
    OptionalAscends("Compression", sp.compression, 2);
    AscendingBoth(p1, 0, 2, p2, 3);
    OneAscends("NarHash", sp.hash, 3);
    OneAscends("NarSize", Decimal(i.narSize), 4);
    AscendingBoth([Pair("NarHash", sp.hash)], 3, 4, [Pair("NarSize", Decimal(i.narSize))], 5);
    assert [Pair("NarHash", sp.hash)] + [Pair("NarSize", Decimal(i.narSize))] == p3;
    AscendingBoth(p1 + p2, 0, 3, p3, 5);
    OptionalAscends("FileSize", SizeText(i.fileSize), 5);
    AscendingBoth(p1 + p2 + p3, 0, 5, p4, 6);
    OneAscends("References", JoinWords(Basenames(i.references)), 6);
    AscendingBoth(p1 + p2 + p3 + p4, 0, 6, p5, 7);
    OptionalAscends("Deriver", sp.deriver, 7);
    AscendingBoth(p1 + p2 + p3 + p4 + p5, 0, 7, p6, 8);
    AscendingIsDistinct(p1 + p2 + p3 + p4 + p5 + p6, 8);
  }

  function KeyRank(key: string): nat {
    match KeyOf(key)
    case KStorePath => 0 case KUrl => 1 case KCompression => 2 case KNarHash => 3 case KNarSize => 4
    case KFileSize => 5 case KReferences => 6 case KDeriver => 7 case KOther => 8
  }

  lemma Ranks()
    ensures KeyRank("StorePath") == 0 && KeyRank("URL") == 1 && KeyRank("Compression") == 2 && KeyRank("NarHash") == 3
    ensures KeyRank("NarSize") == 4 && KeyRank("FileSize") == 5 && KeyRank("References") == 6 && KeyRank("Deriver") == 7
  {
  }

  /** The keys come in rank order, between these bounds. */
  ghost predicate Ascending(ps: seq<Pair>, lo: nat, hi: nat) {
    && (forall j :: 0 <= j < |ps| ==> lo <= KeyRank(ps[j].key) < hi)
    && (forall j, k :: 0 <= j < k < |ps| ==> KeyRank(ps[j].key) < KeyRank(ps[k].key))
  }

  lemma AscendingBoth(a: seq<Pair>, lo: nat, mid: nat, b: seq<Pair>, hi: nat)
    requires Ascending(a, lo, mid) && Ascending(b, mid, hi) && lo <= mid <= hi
    ensures Ascending(a + b, lo, hi)
  {
    hide KeyRank;
  }

  lemma OneAscends(key: string, value: string, lo: nat)
    requires KeyRank(key) == lo
    ensures Ascending([Pair(key, value)], lo, lo + 1)
  {
    hide KeyRank;
  }

  lemma OptionalAscends(key: string, value: Option<string>, lo: nat)
    requires KeyRank(key) == lo
    ensures Ascending(Optional(key, value), lo, lo + 1)
  {
    hide KeyRank;
  }

  lemma AscendingIsDistinct(ps: seq<Pair>, hi: nat)
    requires Ascending(ps, 0, hi)
    ensures DistinctKnownKeys(ps)
  {
    hide KeyOf;
    forall j, k | 0 <= j < k < |ps| ensures Independent(ps[j], ps[k]) {
      assert KeyRank(ps[j].key) < KeyRank(ps[k].key);
    }
  }

  /** Every record that can be said is read back from every text that says it: each of the four compressions by
      name in any letter case (or, for bzip2, by no name or an unknown one), the hash in base 32, hex of either case
      or SRI form, an optional file size, references, and a deriver (or an unknown one); in any order of lines, with
      any inert lines mixed in. */
  lemma EveryRecordIsRead(i: CacheNarInfo, sp: Spelling, lines: seq<string>, inert: seq<string>, sri: Sri)
    requires Spells(i, sp, sri)
    requires multiset(lines) == multiset(LinesOf(InfoPairs(i, sp)) + inert)
    requires (forall l :: l in inert ==> Inert(l)) && forall l :: l in lines ==> NoNewline(l)
    ensures ParseNarInfo(Unlines(lines), sri) == Some(i)
  {
    hide InfoPairs, LinesOf, Pairs, Lines, Unlines, ParsePairs, Inert, Spells, PlainKey, CleanPair, DistinctKnownKeys;
    var ps := InfoPairs(i, sp);
    InfoPairsAreClean(i, sp, sri);
    LinesOfAreRead(ps);
    InfoPairsAreAssigned(i, sp, sri);
    InfoKeysAreDistinct(i, sp);
    NoNewlineLines(LinesOf(ps));
    NoNewlineLines(lines);
    LinesOfUnlines(LinesOf(ps));
    PrintedOrderIrrelevant(LinesOf(ps), lines, inert, sri);
  }

  /** A text that parses has a line for each of the four required keys. */
  lemma ParsedHasRequired(text: string, sri: Sri)
    requires ParseNarInfo(text, sri).Some?
    ensures forall key :: key in ["StorePath", "URL", "NarHash", "NarSize"] ==> exists p :: p in Pairs(Lines(text)) && p.key == key
  {
    hide Lines, Pairs;
    RequiredAssigned(START, Pairs(Lines(text)), sri);
  }

  lemma {:induction false} RequiredAssigned(f: Fields, ps: seq<Pair>, sri: Sri)
    requires AssignAll(f, ps, sri).Some?
    ensures
      var g := AssignAll(f, ps, sri).value;
      && (g.storePath.Some? ==> f.storePath.Some? || exists p :: p in ps && p.key == "StorePath")
      && (g.url.Some? ==> f.url.Some? || exists p :: p in ps && p.key == "URL")
      && (g.narHash.Some? ==> f.narHash.Some? || exists p :: p in ps && p.key == "NarHash")
      && (g.narSize.Some? ==> f.narSize.Some? || exists p :: p in ps && p.key == "NarSize")
    decreases |ps|
  {
    hide Assign;
    if ps != [] {
      var f1 := Assign(f, ps[0], sri).value;
      RequiredAssigned(f1, ps[1..], sri);
      KeySets(f, ps[0], sri);
      assert ps[0] in ps;
    }
  }

  lemma KeySets(f: Fields, p: Pair, sri: Sri)
    requires Assign(f, p, sri).Some?
    ensures
      var g := Assign(f, p, sri).value;
      && (g.storePath.Some? ==> f.storePath.Some? || p.key == "StorePath")
      && (g.url.Some? ==> f.url.Some? || p.key == "URL")
      && (g.narHash.Some? ==> f.narHash.Some? || p.key == "NarHash")
      && (g.narSize.Some? ==> f.narSize.Some? || p.key == "NarSize")
  {
    hide ParsePrefixedSha256, ParseU64, CompressionOf, SplitWords, StorePaths;
  }
}
