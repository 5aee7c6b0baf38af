/** The Nix CommonProto helpers (iroh-nix/src/nix_protocol.rs), the settings reader of the build hook
    (iroh-nix/src/build_hook.rs:226-247) and the export stream (iroh-nix/src/http_cache.rs:552-595).
 */
module Protocol {
  import opened Common
  import opened Wire
  import opened Nar
  import opened NarTree

  // --- Writers ---------------------------------------------------------------------------------------------

  /** An in-memory output. */
  class Buffer {
    var bytes: seq<Byte>

    constructor ()
      ensures bytes == []
    {
      bytes := [];
    }

    method Extend(more: seq<Byte>)
      modifies this
      ensures bytes == old(bytes) + more
    {
      bytes := bytes + more;
    }
  }

  /** nix_protocol.rs:88-100 */
  method WriteString(buf: Buffer, s: Bytes)
    modifies buf
    ensures buf.bytes == old(buf.bytes) + Padded(s)
  {
    hide Padding;
    buf.Extend(U64Bytes(|s|));
    buf.Extend(s);
    var padding := Padding(|s|);
    if padding > 0 { buf.Extend(Zeros(padding)); }
    assert old(buf.bytes) + U64Bytes(|s|) + s + Zeros(padding) == old(buf.bytes) + Padded(s);
  }

  /** http_cache.rs:588-595: the padding is a slice of an eight-byte block. */
  method WriteNixString(buf: Buffer, s: Bytes)
    modifies buf
    ensures buf.bytes == old(buf.bytes) + Padded(s)
  {
    hide Padding;
    buf.Extend(U64Bytes(|s|));
    buf.Extend(s);
    var padding := Padding(|s|);
    var block := Zeros(8);
    if padding > 0 { buf.Extend(block[..padding]); }
    assert block[..padding] == Zeros(padding);
    assert old(buf.bytes) + U64Bytes(|s|) + s + Zeros(padding) == old(buf.bytes) + Padded(s);
  }

  function Strings(ss: seq<Bytes>): seq<Byte> {
    if ss == [] then [] else Padded(ss[0]) + Strings(ss[1..])
  }

  /** A counted list of padded strings. */
  function StringSet(ss: seq<Bytes>): seq<Byte>
    requires |ss| < U64
  {
    U64Bytes(|ss|) + Strings(ss)
  }

  /** nix_protocol.rs:105-111 */
  method WriteStringSet(buf: Buffer, ss: seq<Bytes>)
    requires |ss| < U64
    modifies buf
    ensures buf.bytes == old(buf.bytes) + StringSet(ss)
  {
    hide Strings, LE;
    buf.Extend(U64Bytes(|ss|));
    WriteAllStrings(buf, ss);
    ghost var before, count, rest := old(buf.bytes), U64Bytes(|ss|), Strings(ss);
    assert before + count + rest == before + (count + rest);
  }

  method WriteAllStrings(buf: Buffer, ss: seq<Bytes>)
    modifies buf
    ensures buf.bytes == old(buf.bytes) + Strings(ss)
  {
    hide Padded;
    for i := 0 to |ss|
      invariant buf.bytes + Strings(ss[i..]) == old(buf.bytes) + Strings(ss)
    {
      ghost var out := buf.bytes;
      WriteString(buf, ss[i]);
      assert ss[i..][1..] == ss[i + 1..];
      assert out + (Padded(ss[i]) + Strings(ss[i + 1..])) == out + Padded(ss[i]) + Strings(ss[i + 1..]);
    }
    assert buf.bytes + [] == buf.bytes;
  }

  // --- What the readers accept ---------------------------------------------------------------------------

  /** nix_protocol.rs:17-27 */
  function ReadU32(b: seq<Byte>): Read<nat> {
    if |b| < 4 then Fail else Got(FromLE(b[..4]), b[4..])
  }

  /** nix_protocol.rs:45-59: the padding is skipped, whatever it holds; the data must be UTF-8. */
  function ReadString(b: seq<Byte>): (r: Read<seq<Byte>>)
    ensures r.Got? ==> |r.value| < U64 && |r.rest| < |b|
  {
    match ReadU64(b)
    case Fail => Fail
    case Got(n, tail) =>
      Pow256Eight();
      if |tail| < n + Padding(n) || !ValidUtf8(tail[..n]) then Fail
      else Got(tail[..n], tail[n + Padding(n)..])
  }

  function ReadStrings(n: nat, b: seq<Byte>): Read<seq<Bytes>> {
    if n == 0 then Got([], b)
    else match ReadString(b)
      case Fail => Fail
      case Got(s, rest) =>
        match ReadStrings(n - 1, rest)
        case Fail => Fail
        case Got(ss, rest') => Got([s] + ss, rest')
  }

  function ReadStringSet(b: seq<Byte>): Read<seq<Bytes>> {
    match ReadU64(b)
    case Fail => Fail
    case Got(n, rest) => ReadStrings(n, rest)
  }

  type Settings = map<Bytes, Bytes>

  /** One more setting; a later value for a key replaces an earlier one. */
  function ReadSettings(acc: Settings, b: seq<Byte>): Read<Settings>
    decreases |b|
  {
    match ReadU32(b)
    case Fail => Fail
    case Got(flag, rest) =>
      if flag == 0 then Got(acc, rest)
      else if flag != 1 then Fail
      else match ReadString(rest)
        case Fail => Fail
        case Got(key, rest) =>
          match ReadString(rest)
          case Fail => Fail
          case Got(value, rest) => ReadSettings(acc[key := value], rest)
  }

  // --- The readers -----------------------------------------------------------------------------------------

  /** A reader over a byte string. */
  class Reader {
    var input: seq<Byte>

    constructor (input: seq<Byte>)
      ensures this.input == input
    {
      this.input := input;
    }

    /** `read_exact` */
    method ReadExact(n: nat) returns (r: Option<seq<Byte>>)
      modifies this
      ensures r.Some? <==> n <= |old(input)|
      ensures r.Some? ==> r.value == old(input)[..n] && input == old(input)[n..]
    {
      if |input| < n {
        input := [];
        r := None;
      } else {
        r := Some(input[..n]);
        input := input[n..];
      }
    }

    /** nix_protocol.rs:45-59 */
    method GetString() returns (r: Option<Bytes>)
      modifies this
      ensures match ReadString(old(input)) { case Fail => r == None case Got(s, rest) => r == Some(s) && input == rest }
    {
      hide ValidUtf8;
      var head := ReadExact(8);
      if head.None? { return None; }
      var len := FromLE(head.value);
      Pow256Eight();
      var data := ReadExact(len);
      if data.None? { return None; }
      var padding := Padding(len);
      if padding > 0 {
        var pad := ReadExact(padding);
        if pad.None? { return None; }
      }
      r := if ValidUtf8(data.value) then Some(data.value) else None;
    }

    /** nix_protocol.rs:64-71 */
    method GetStringSet() returns (r: Option<seq<Bytes>>)
      modifies this
      ensures match ReadStringSet(old(input)) { case Fail => r == None case Got(ss, rest) => r == Some(ss) && input == rest }
    {
      hide ReadString;
      var head := ReadExact(8);
      if head.None? { return None; }
      var count := FromLE(head.value);
      ghost var body := input;
      var strings: seq<Bytes> := [];
      assert forall ss: seq<Bytes> :: strings + ss == ss;
      for i := 0 to count
        invariant match ReadStrings(count - i, input) {
                    case Fail => ReadStrings(count, body).Fail?
                    case Got(ss, rest) => ReadStrings(count, body) == Got(strings + ss, rest) }
      {
        ghost var before, tail := strings, ReadStrings(count - i - 1, (match ReadString(input) { case Fail => [] case Got(_, t) => t }));
        var s := GetString();
        if s.None? { return None; }
        strings := strings + [s.value];
        assert tail.Got? ==> before + ([s.value] + tail.value) == strings + tail.value;
      }
      r := Some(strings);
      assert strings + [] == strings;
    }

    /** build_hook.rs:226-247 */
    method GetSettings() returns (r: Option<Settings>)
      modifies this
      ensures match ReadSettings(map[], old(input)) { case Fail => r == None case Got(m, rest) => r == Some(m) && input == rest }
    {
      hide ReadString;
      var settings: Settings := map[];
      while true
        invariant ReadSettings(settings, input) == ReadSettings(map[], old(input))
        decreases |input|
      {
        ghost var before := input;
        var head := ReadExact(4);
        if head.None? { return None; }
        var flag := FromLE(head.value);
        if flag == 0 { return Some(settings); }
        if flag != 1 { return None; }
        StringShortens(input);
        var key := GetString();
        if key.None? { return None; }
        StringShortens(input);
        var value := GetString();
        if value.None? { return None; }
        settings := settings[key.value := value.value];
      }
    }
  }

  lemma StringShortens(b: seq<Byte>)
    ensures ReadString(b).Got? ==> |ReadString(b).rest| < |b|
  {
  }

  // --- Round trips -------------------------------------------------------------------------------------------

  /** The string reader accepts any padding bytes, and otherwise exactly what the writers produce. */
  lemma ReadStringExact(b: seq<Byte>, s: Bytes, rest: seq<Byte>)
    ensures ReadString(b) == Got(s, rest) <==>
            ValidUtf8(s) && exists pad: seq<Byte> :: |pad| == Padding(|s|) && b == U64Bytes(|s|) + s + pad + rest
  {
    hide ReadString, ValidUtf8, Padding, LE;
    if ReadString(b) == Got(s, rest) { var pad := AcceptedShape(b, s, rest); }
    forall pad: seq<Byte> | ValidUtf8(s) && |pad| == Padding(|s|) && b == U64Bytes(|s|) + s + pad + rest
      ensures ReadString(b) == Got(s, rest)
    {
      ShapeAccepted(s, pad, rest);
    }
  }

  lemma AcceptedShape(b: seq<Byte>, s: Bytes, rest: seq<Byte>) returns (pad: seq<Byte>)
    requires ReadString(b) == Got(s, rest)
    ensures ValidUtf8(s) && |pad| == Padding(|s|) && b == U64Bytes(|s|) + s + pad + rest
  {
    hide Padding, ValidUtf8, LE, FromLE, Pow256;
    Pow256Eight();
    var tail := ReadU64(b).rest;
    var n := |s|;
    pad := tail[n..n + Padding(n)];
    ReadU64Exact(b, n, tail);
    assert tail == tail[..n] + pad + tail[n + Padding(n)..];
    assert U64Bytes(n) + (s + pad + rest) == U64Bytes(n) + s + pad + rest;
  }

  lemma ShapeAccepted(s: Bytes, pad: seq<Byte>, rest: seq<Byte>)
    requires ValidUtf8(s) && |pad| == Padding(|s|)
    ensures ReadString(U64Bytes(|s|) + s + pad + rest) == Got(s, rest)
  {
    hide Padding, ValidUtf8, LE, FromLE, Pow256;
    var tail := s + pad + rest;
    assert U64Bytes(|s|) + s + pad + rest == U64Bytes(|s|) + tail;
    ReadsU64(|s|, tail);
    assert tail[..|s|] == s && tail[|s| + Padding(|s|)..] == rest;
  }

  lemma ReadsString(s: Bytes, rest: seq<Byte>)
    requires ValidUtf8(s)
    ensures ReadString(Padded(s) + rest) == Got(s, rest)
  {
    hide Padding, ReadString, ValidUtf8;
    ReadStringExact(Padded(s) + rest, s, rest);
    assert |Zeros(Padding(|s|))| == Padding(|s|);
  }

  lemma {:induction false} ReadsStrings(ss: seq<Bytes>, rest: seq<Byte>)
    requires forall s :: s in ss ==> ValidUtf8(s)
    ensures ReadStrings(|ss|, Strings(ss) + rest) == Got(ss, rest)
  {
    hide Padded, ReadString, ValidUtf8;
    if ss == [] {
      assert Strings(ss) + rest == rest;
    } else {
      var tail := Strings(ss[1..]) + rest;
      assert Strings(ss) + rest == Padded(ss[0]) + tail;
      ReadsString(ss[0], tail);
      ReadsStrings(ss[1..], rest);
      assert [ss[0]] + ss[1..] == ss;
    }
  }

  /** A string set is recovered, with any bytes after it. */
  lemma ReadsStringSet(ss: seq<Bytes>, rest: seq<Byte>)
    requires |ss| < U64 && forall s :: s in ss ==> ValidUtf8(s)
    ensures ReadStringSet(StringSet(ss) + rest) == Got(ss, rest)
  {
    hide ValidUtf8;
    assert StringSet(ss) + rest == U64Bytes(|ss|) + (Strings(ss) + rest);
    ReadsU64(|ss|, Strings(ss) + rest);
    ReadsStrings(ss, rest);
  }

  /** What the daemon sends: flag 1, key, value for each setting, then flag 0. */
  function SettingsBytes(pairs: seq<(Bytes, Bytes)>): seq<Byte> {
    if pairs == [] then LE(0, 4)
    else LE(1, 4) + Padded(pairs[0].0) + Padded(pairs[0].1) + SettingsBytes(pairs[1..])
  }

  function Assign(acc: Settings, pairs: seq<(Bytes, Bytes)>): Settings
    decreases |pairs|
  {
    if pairs == [] then acc else Assign(acc[pairs[0].0 := pairs[0].1], pairs[1..])
  }

  lemma ReadsU32(n: nat, rest: seq<Byte>)
    requires n < 0x1_0000_0000
    ensures ReadU32(LE(n, 4) + rest) == Got(n, rest)
  {
    Pow256Eight();
    FromLEInvertsLE(n, 4);
    assert (LE(n, 4) + rest)[..4] == LE(n, 4) && (LE(n, 4) + rest)[4..] == rest;
  }

  /** The settings are recovered, later values winning, with any bytes after them. */
  lemma {:induction false} ReadsSettings(acc: Settings, pairs: seq<(Bytes, Bytes)>, rest: seq<Byte>)
    requires forall p :: p in pairs ==> ValidUtf8(p.0) && ValidUtf8(p.1)
    ensures ReadSettings(acc, SettingsBytes(pairs) + rest) == Got(Assign(acc, pairs), rest)
    decreases |pairs|
  {
    hide Padded, ReadString, ValidUtf8, ReadU32, LE;
    if pairs == [] {
      ReadsU32(0, rest);
    } else {
      var k, v := pairs[0].0, pairs[0].1;
      var tail := SettingsBytes(pairs[1..]) + rest;
      var b := SettingsBytes(pairs) + rest;
      assert pairs[0] in pairs;
      assert b == LE(1, 4) + (Padded(k) + (Padded(v) + tail));
      ReadsU32(1, Padded(k) + (Padded(v) + tail));
      ReadsString(k, Padded(v) + tail);
      ReadsString(v, tail);
      ReadsSettings(acc[k := v], pairs[1..], rest);
    }
  }

  /** `Assign` keeps the last value of each key. */
  lemma {:induction false} LastValueWins(acc: Settings, pairs: seq<(Bytes, Bytes)>, i: nat)
    requires i < |pairs| && forall j :: i < j < |pairs| ==> pairs[j].0 != pairs[i].0
    ensures pairs[i].0 in Assign(acc, pairs) && Assign(acc, pairs)[pairs[i].0] == pairs[i].1
    decreases |pairs|
  {
    if i > 0 {
      LastValueWins(acc[pairs[0].0 := pairs[0].1], pairs[1..], i - 1);
    } else {
      Untouched(acc[pairs[0].0 := pairs[0].1], pairs[1..], pairs[0].0);
    }
  }

  lemma {:induction false} Untouched(acc: Settings, pairs: seq<(Bytes, Bytes)>, key: Bytes)
    requires key in acc && forall j :: 0 <= j < |pairs| ==> pairs[j].0 != key
    ensures key in Assign(acc, pairs) && Assign(acc, pairs)[key] == acc[key]
    decreases |pairs|
  {
    if pairs != [] { Untouched(acc[pairs[0].0 := pairs[0].1], pairs[1..], key); }
  }

  // --- The export stream -------------------------------------------------------------------------------------

  const EXPORT_MAGIC: nat := 0x4558494e

  /** The magic number reads "NIXE" in the stream, followed by four zero bytes. */
  lemma MagicSpellsNixe()
    ensures U64Bytes(EXPORT_MAGIC) == AsciiBytes("NIXE") + [0, 0, 0, 0]
  {
    hide FromLE, LE;
    var z4: seq<Byte> := [0, 0, 0, 0];
    NoBytes();
    LowByteFirst(0, []);
    LowByteFirst(0, [0]);
    LowByteFirst(0, [0, 0]);
    LowByteFirst(0, [0, 0, 0]);
    assert [0] + [] == [0] && [0] + [0] == [0, 0] && [0] + [0, 0] == [0, 0, 0] && [0] + [0, 0, 0] == z4;
    LowByteFirst(0x45, z4);
    LowByteFirst(0x58, [0x45] + z4);
    LowByteFirst(0x49, [0x58] + ([0x45] + z4));
    LowByteFirst(0x4e, [0x49] + ([0x58] + ([0x45] + z4)));
    var all: seq<Byte> := [0x4e] + ([0x49] + ([0x58] + ([0x45] + z4)));
    assert |all| == 8 && FromLE(all) == EXPORT_MAGIC;
    LEInvertsFromLE(all);
    assert all == AsciiBytes("NIXE") + [0, 0, 0, 0];
  }

  lemma NoBytes()
    ensures FromLE([]) == 0
  {
  }

  lemma LowByteFirst(b: Byte, s: seq<Byte>)
    ensures FromLE([b] + s) == b + 256 * FromLE(s)
  {
    assert ([b] + s)[1..] == s;
  }

  datatype Import = Import(narData: seq<Byte>, storePath: Bytes, references: seq<Bytes>, deriver: Option<Bytes>)

  function DeriverOrEmpty(d: Import): Bytes { if d.deriver.Some? then d.deriver.value else [] }

  /** Everything after the archive. */
  function ExportTail(d: Import): seq<Byte>
    requires |d.references| < U64
  {
    U64Bytes(EXPORT_MAGIC) + Padded(d.storePath) + StringSet(d.references) + Padded(DeriverOrEmpty(d)) + U64Bytes(0) + U64Bytes(0)
  }

  function ExportBytes(d: Import): seq<Byte>
    requires |d.references| < U64
  {
    U64Bytes(1) + d.narData + ExportTail(d)
  }

  /** http_cache.rs:552-584 */
  method BuildExportData(d: Import) returns (data: seq<Byte>)
    requires |d.references| < U64
    ensures data == ExportBytes(d)
  {
    hide Padded, Strings, LE;
    var buf := new Buffer();
    buf.Extend(U64Bytes(1));
    buf.Extend(d.narData);
    ghost var head := buf.bytes;
    buf.Extend(U64Bytes(EXPORT_MAGIC));
    WriteNixString(buf, d.storePath);
    buf.Extend(U64Bytes(|d.references|));
    ghost var upto := buf.bytes;
    for i := 0 to |d.references|
      invariant buf.bytes + Strings(d.references[i..]) == upto + Strings(d.references)
    {
      ghost var out := buf.bytes;
      WriteNixString(buf, d.references[i]);
      StringsStep(d.references, i);
      assert out + (Padded(d.references[i]) + Strings(d.references[i + 1..])) == out + Padded(d.references[i]) + Strings(d.references[i + 1..]);
    }
    StringsEnd(d.references);
    assert buf.bytes + [] == buf.bytes;
    var deriver := if d.deriver.Some? then d.deriver.value else [];
    WriteNixString(buf, deriver);
    buf.Extend(U64Bytes(0));
    buf.Extend(U64Bytes(0));
    data := buf.bytes;
    ExportParts(d, head);
  }

  lemma StringsStep(ss: seq<Bytes>, i: nat)
    requires i < |ss|
    ensures Strings(ss[i..]) == Padded(ss[i]) + Strings(ss[i + 1..])
  {
    assert ss[i..][1..] == ss[i + 1..];
  }

  lemma StringsEnd(ss: seq<Bytes>)
    ensures Strings(ss[|ss|..]) == []
  {
  }

  lemma ExportParts(d: Import, head: seq<Byte>)
    requires |d.references| < U64 && head == [] + U64Bytes(1) + d.narData
    ensures head + U64Bytes(EXPORT_MAGIC) + Padded(d.storePath) + U64Bytes(|d.references|) + Strings(d.references)
            + Padded(DeriverOrEmpty(d)) + U64Bytes(0) + U64Bytes(0) == ExportBytes(d)
  {
    hide Padded, Strings, LE, DeriverOrEmpty;
    var m, p, c, s, v, z := U64Bytes(EXPORT_MAGIC), Padded(d.storePath), U64Bytes(|d.references|), Strings(d.references), Padded(DeriverOrEmpty(d)), U64Bytes(0);
    assert head + m + p + c + s + v + z + z == head + (m + p + (c + s) + v + z + z);
    assert [] + U64Bytes(1) == U64Bytes(1);
  }

  /** What an importer learns from an export stream. */
  datatype Exported = Exported(node: Node, storePath: Bytes, references: seq<Bytes>, deriver: Bytes)

  function ReadPaddedMany(n: nat, b: seq<Byte>): Read<seq<Bytes>> {
    if n == 0 then Got([], b)
    else match ReadPadded(b)
      case Fail => Fail
      case Got(s, rest) =>
        match ReadPaddedMany(n - 1, rest)
        case Fail => Fail
        case Got(ss, rest') => Got([s] + ss, rest')
  }

  ghost function ParseTail(n: Node, b: seq<Byte>): Read<Exported> {
    match ReadU64(b)
    case Fail => Fail
    case Got(magic, b1) =>
      match ReadPadded(b1)
      case Fail => Fail
      case Got(path, b2) =>
        match ReadU64(b2)
        case Fail => Fail
        case Got(count, b3) =>
          match ReadPaddedMany(count, b3)
          case Fail => Fail
          case Got(refs, b4) =>
            match ReadPadded(b4)
            case Fail => Fail
            case Got(deriver, b5) =>
              if magic == EXPORT_MAGIC && |b5| >= 16 && b5[..16] == U64Bytes(0) + U64Bytes(0)
              then Got(Exported(n, path, refs, deriver), b5[16..]) else Fail
  }

  ghost function ParseExport(b: seq<Byte>): Read<Exported> {
    match ReadU64(b)
    case Fail => Fail
    case Got(marker, b1) =>
      match ParseNar(b1)
      case Fail => Fail
      case Got(n, b2) => if marker == 1 then ParseTail(n, b2) else Fail
  }

  lemma {:induction false} ReadsPaddedMany(ss: seq<Bytes>, rest: seq<Byte>)
    ensures ReadPaddedMany(|ss|, Strings(ss) + rest) == Got(ss, rest)
  {
    hide Padded, ReadPadded;
    if ss == [] {
      assert Strings(ss) + rest == rest;
    } else {
      var tail := Strings(ss[1..]) + rest;
      assert Strings(ss) + rest == Padded(ss[0]) + tail;
      ReadPaddedExact(Strings(ss) + rest, ss[0], tail);
      ReadsPaddedMany(ss[1..], rest);
      assert [ss[0]] + ss[1..] == ss;
    }
  }

  lemma ParsesTail(n: Node, d: Import, rest: seq<Byte>)
    requires |d.references| < U64
    ensures ParseTail(n, ExportTail(d) + rest) == Got(Exported(n, d.storePath, d.references, DeriverOrEmpty(d)), rest)
  {
    hide Padded, ReadPadded, ReadU64, Strings, LE, ReadPaddedMany;
    var zz := U64Bytes(0) + U64Bytes(0);
    var b5 := zz + rest;
    var b4 := Padded(DeriverOrEmpty(d)) + b5;
    var b3 := Strings(d.references) + b4;
    var b2 := U64Bytes(|d.references|) + b3;
    var b1 := Padded(d.storePath) + b2;
    TailShape(U64Bytes(EXPORT_MAGIC), Padded(d.storePath), U64Bytes(|d.references|), Strings(d.references),
              Padded(DeriverOrEmpty(d)), U64Bytes(0), rest);
    ReadsU64(EXPORT_MAGIC, b1);
    ReadPaddedExact(b1, d.storePath, b2);
    ReadsU64(|d.references|, b3);
    ReadsPaddedMany(d.references, b4);
    ReadPaddedExact(b4, DeriverOrEmpty(d), b5);
    assert b5[..16] == zz && b5[16..] == rest;
  }

  lemma TailShape(m: seq<Byte>, p: seq<Byte>, c: seq<Byte>, s: seq<Byte>, v: seq<Byte>, z: seq<Byte>, rest: seq<Byte>)
    ensures m + p + (c + s) + v + z + z + rest == m + (p + (c + (s + (v + ((z + z) + rest)))))
  {
  }

  /** The export of a well-formed archive determines the tree, the path, the references and the deriver
      (an absent deriver reads as the empty one), whatever follows it. */
  lemma ExportIsRead(d: Import, n: Node, rest: seq<Byte>)
    requires |d.references| < U64 && Canonical(n) && d.narData == NarBytes(n)
    ensures ParseExport(ExportBytes(d) + rest) == Got(Exported(n, d.storePath, d.references, DeriverOrEmpty(d)), rest)
  {
    hide ParseNar, ParseTail, ExportTail, LE, ReadU64, NarBytes;
    var tail := ExportTail(d) + rest;
    assert ExportBytes(d) + rest == U64Bytes(1) + (NarBytes(n) + tail);
    ReadsU64(1, NarBytes(n) + tail);
    NarIsRead(n, tail);
    ParsesTail(n, d, rest);
  }

  lemma {:induction false} ManyWereWritten(n: nat, b: seq<Byte>)
    requires ReadPaddedMany(n, b).Got?
    ensures var r := ReadPaddedMany(n, b); |r.value| == n && b == Strings(r.value) + r.rest
  {
    hide Padded, ReadPadded;
    if n == 0 {
      assert Strings([]) + b == b;
    } else {
      var r, first := ReadPaddedMany(n, b), ReadPadded(b);
      ReadPaddedExact(b, first.value, first.rest);
      ManyWereWritten(n - 1, first.rest);
      var tail := ReadPaddedMany(n - 1, first.rest);
      assert r.value[1..] == tail.value && r.value[0] == first.value;
      assert Padded(first.value) + (Strings(tail.value) + r.rest) == Padded(first.value) + Strings(tail.value) + r.rest;
    }
  }

  /** The import that an export stream carries; an absent deriver cannot be told from an empty one. */
  function ImportOf(x: Exported): Import { Import(NarBytes(x.node), x.storePath, x.references, Some(x.deriver)) }

  lemma U64WasWritten(b: seq<Byte>)
    requires ReadU64(b).Got?
    ensures var r := ReadU64(b); r.value < U64 && b == U64Bytes(r.value) + r.rest
  {
    hide LE, FromLE, Pow256;
    Pow256Eight();
    assert FromLE(b[..8]) < Pow256(|b[..8]|);
    ReadU64Exact(b, ReadU64(b).value, ReadU64(b).rest);
  }

  lemma TailWasWritten(n: Node, b: seq<Byte>)
    requires ParseTail(n, b).Got?
    ensures var r := ParseTail(n, b); |r.value.references| < U64 && r.value.node == n && b == ExportTail(ImportOf(r.value)) + r.rest
  {
    hide Padded, ReadPadded, ReadU64, Strings, LE, ReadPaddedMany, NarBytes;
    var r0 := ReadU64(b);
    var r1 := ReadPadded(r0.rest);
    var r2 := ReadU64(r1.rest);
    var r3 := ReadPaddedMany(r2.value, r2.rest);
    var r4 := ReadPadded(r3.rest);
    U64WasWritten(b);
    ReadPaddedExact(r0.rest, r1.value, r1.rest);
    U64WasWritten(r1.rest);
    ManyWereWritten(r2.value, r2.rest);
    ReadPaddedExact(r3.rest, r4.value, r4.rest);
    var rest := r4.rest[16..];
    assert r4.rest == (U64Bytes(0) + U64Bytes(0)) + rest;
    TailShape(U64Bytes(EXPORT_MAGIC), Padded(r1.value), U64Bytes(r2.value), Strings(r3.value), Padded(r4.value), U64Bytes(0), rest);
  }

  /** The reader accepts exactly the exports of canonical archives, with any bytes after them. */
  lemma ParseExportExact(b: seq<Byte>, x: Exported, rest: seq<Byte>)
    ensures ParseExport(b) == Got(x, rest) <==>
            Canonical(x.node) && |x.references| < U64 && b == ExportBytes(ImportOf(x)) + rest
  {
    hide ParseNar, ParseTail, ExportTail, LE, ReadU64, NarBytes, Canonical, ExportBytes;
    if ParseExport(b) == Got(x, rest) {
      var r0 := ReadU64(b);
      var r1 := ParseNar(r0.rest);
      U64WasWritten(b);
      ParseNarExact(r0.rest, r1.value, r1.rest);
      TailWasWritten(r1.value, r1.rest);
      ExportShape(ImportOf(x), rest);
    }
    if Canonical(x.node) && |x.references| < U64 && b == ExportBytes(ImportOf(x)) + rest {
      ExportIsRead(ImportOf(x), x.node, rest);
    }
  }

  lemma ExportShape(d: Import, rest: seq<Byte>)
    requires |d.references| < U64
    ensures ExportBytes(d) + rest == U64Bytes(1) + (d.narData + (ExportTail(d) + rest))
  {
    hide LE, ExportTail;
  }

  ghost predicate WellFormed(d: Import) {
    |d.references| < U64 && exists n :: Canonical(n) && d.narData == NarBytes(n)
  }

  /** Two exports of well-formed archives agree exactly when they differ at most in an absent versus an
      empty deriver. */
  lemma ExportExact(a: Import, b: Import)
    requires WellFormed(a) && WellFormed(b)
    ensures ExportBytes(a) == ExportBytes(b) <==>
            a.narData == b.narData && a.storePath == b.storePath && a.references == b.references && DeriverOrEmpty(a) == DeriverOrEmpty(b)
  {
    hide ExportBytes, NarBytes, Canonical, ParseExport, ExportTail;
    var n :| Canonical(n) && a.narData == NarBytes(n);
    var m :| Canonical(m) && b.narData == NarBytes(m);
    ExportIsRead(a, n, []);
    ExportIsRead(b, m, []);
    assert ExportBytes(a) + [] == ExportBytes(a) && ExportBytes(b) + [] == ExportBytes(b);
    if a.narData == b.narData && a.storePath == b.storePath && a.references == b.references && DeriverOrEmpty(a) == DeriverOrEmpty(b) {
      SameParts(a, b);
    }
  }

  lemma SameParts(a: Import, b: Import)
    requires |a.references| < U64 && |b.references| < U64
    requires a.narData == b.narData && a.storePath == b.storePath && a.references == b.references && DeriverOrEmpty(a) == DeriverOrEmpty(b)
    ensures ExportBytes(a) == ExportBytes(b)
  {
  }

  // --- For which archives exports are uniquely decodable ----------------------------------------------------

  /** The parts of an import that an export can carry. */
  ghost predicate SameImport(a: Import, b: Import) {
    a.narData == b.narData && a.storePath == b.storePath && a.references == b.references && DeriverOrEmpty(a) == DeriverOrEmpty(b)
  }

  /** Exports whose archives come from this set determine their imports. */
  ghost predicate Decodable(archives: iset<seq<Byte>>) {
    forall a: Import, b: Import ::
      (&& a.narData in archives && b.narData in archives && |a.references| < U64 && |b.references| < U64
       && ExportBytes(a) == ExportBytes(b)) ==> SameImport(a, b)
  }

  /** Bytes by which an archive can be longer without the export showing it: what follows the shorter archive
      starts with them and goes on like what follows the longer one. */
  ghost predicate Hides(gap: seq<Byte>) {
    gap != [] && exists a: Import, b: Import ::
      |a.references| < U64 && |b.references| < U64 && ExportTail(a) == gap + ExportTail(b)
  }

  /** One archive of the set continues another by bytes that an export can hide. */
  ghost predicate Confusable(archives: iset<seq<Byte>>) {
    exists n, gap: seq<Byte> :: n in archives && n + gap in archives && Hides(gap)
  }

  ghost predicate PrefixFree(archives: iset<seq<Byte>>) {
    forall n, m :: n in archives && m in archives && n <= m ==> n == m
  }

  /** What follows the archive determines its own parts. */
  lemma TailExact(a: Import, b: Import)
    requires |a.references| < U64 && |b.references| < U64 && ExportTail(a) == ExportTail(b)
    ensures a.storePath == b.storePath && a.references == b.references && DeriverOrEmpty(a) == DeriverOrEmpty(b)
  {
    hide ExportTail, ParseTail, DeriverOrEmpty;
    var n := Symlink([]);
    ParsesTail(n, a, []);
    ParsesTail(n, b, []);
    assert ExportTail(a) + [] == ExportTail(b) + [];
  }

  /** Two equal streams with archives of different lengths hide the difference. */
  lemma LongerHides(a: Import, b: Import)
    requires |a.references| < U64 && |b.references| < U64 && ExportBytes(a) == ExportBytes(b) && |a.narData| < |b.narData|
    ensures a.narData <= b.narData && Hides(b.narData[|a.narData|..])
  {
    hide ExportTail, LE;
    var gap := b.narData[|a.narData|..];
    CancelFront(U64Bytes(1), a.narData, ExportTail(a), b.narData, ExportTail(b));
    assert ExportTail(a) == gap + ExportTail(b);
  }

  lemma CancelFront(m: seq<Byte>, x: seq<Byte>, s: seq<Byte>, y: seq<Byte>, t: seq<Byte>)
    requires m + x + s == m + y + t && |x| <= |y|
    ensures x <= y && s == y[|x|..] + t
  {
    var all := m + x + s;
    assert x == all[|m|..|m| + |x|] && y == all[|m|..|m| + |y|];
    assert s == all[|m| + |x|..] && t == all[|m| + |y|..];
    assert y[|x|..] == all[|m| + |x|..|m| + |y|];
  }

  lemma SameLengthExact(a: Import, b: Import)
    requires |a.references| < U64 && |b.references| < U64 && ExportBytes(a) == ExportBytes(b) && |a.narData| == |b.narData|
    ensures SameImport(a, b)
  {
    hide ExportTail, LE, DeriverOrEmpty;
    CancelFront(U64Bytes(1), a.narData, ExportTail(a), b.narData, ExportTail(b));
    assert b.narData[|a.narData|..] + ExportTail(b) == ExportTail(b);
    TailExact(a, b);
  }

  /** Exports over a set of archives are uniquely decodable exactly when no archive of the set continues another
      one by bytes that can be hidden. */
  lemma DecodableExactly(archives: iset<seq<Byte>>)
    ensures Decodable(archives) <==> !Confusable(archives)
  {
    hide ExportBytes, ExportTail, Hides, DeriverOrEmpty;
    if Confusable(archives) {
      var n, gap: seq<Byte> :| n in archives && n + gap in archives && Hides(gap);
      var a, b := HiddenPair(n, gap);
      assert !SameImport(a, b);
    } else {
      forall a: Import, b: Import |
        (&& a.narData in archives && b.narData in archives && |a.references| < U64 && |b.references| < U64
         && ExportBytes(a) == ExportBytes(b))
        ensures SameImport(a, b)
      {
        if |a.narData| < |b.narData| {
          LongerConfuses(archives, a, b);
        } else if |b.narData| < |a.narData| {
          LongerConfuses(archives, b, a);
        } else {
          SameLengthExact(a, b);
        }
      }
    }
  }

  lemma LongerConfuses(archives: iset<seq<Byte>>, a: Import, b: Import)
    requires a.narData in archives && b.narData in archives && |a.references| < U64 && |b.references| < U64
    requires ExportBytes(a) == ExportBytes(b) && |a.narData| < |b.narData|
    ensures Confusable(archives)
  {
    hide ExportBytes, Hides;
    LongerHides(a, b);
    assert a.narData + b.narData[|a.narData|..] == b.narData;
  }

  lemma HiddenPair(n: seq<Byte>, gap: seq<Byte>) returns (a: Import, b: Import)
    requires Hides(gap)
    ensures a.narData == n && b.narData == n + gap && a.narData != b.narData
    ensures |a.references| < U64 && |b.references| < U64 && ExportBytes(a) == ExportBytes(b)
  {
    hide ExportTail, LE;
    var a0: Import, b0: Import :| |a0.references| < U64 && |b0.references| < U64 && ExportTail(a0) == gap + ExportTail(b0);
    a, b := a0.(narData := n), b0.(narData := n + gap);
    TailIgnoresArchive(a0, n);
    TailIgnoresArchive(b0, n + gap);
    assert U64Bytes(1) + n + (gap + ExportTail(b0)) == U64Bytes(1) + (n + gap) + ExportTail(b0);
  }

  lemma TailIgnoresArchive(d: Import, n: seq<Byte>)
    requires |d.references| < U64
    ensures ExportTail(d.(narData := n)) == ExportTail(d)
  {
    hide LE, Padded, Strings;
  }

  /** In particular any prefix-free set of archives will do, such as the canonical ones. */
  lemma PrefixFreeIsDecodable(archives: iset<seq<Byte>>)
    requires PrefixFree(archives)
    ensures Decodable(archives)
  {
    hide Decodable, Hides;
    DecodableExactly(archives);
    if Confusable(archives) {
      var n, gap: seq<Byte> :| n in archives && n + gap in archives && Hides(gap);
      HiddenIsLonger(n, gap);
    }
  }

  lemma HiddenIsLonger(n: seq<Byte>, gap: seq<Byte>)
    requires Hides(gap)
    ensures n <= n + gap && n != n + gap
  {
    hide ExportTail;
    assert |n + gap| > |n|;
  }

  ghost function CanonicalArchives(): iset<seq<Byte>> { iset n | Canonical(n) :: NarBytes(n) }

  lemma CanonicalArchivesDecodable()
    ensures Decodable(CanonicalArchives())
  {
    hide Decodable, Canonical, NarBytes;
    var archives := CanonicalArchives();
    forall x, y | x in archives && y in archives && x <= y ensures x == y {
      var n :| Canonical(n) && x == NarBytes(n);
      var m :| Canonical(m) && y == NarBytes(m);
      assert y == x + y[|x|..] && y == y + [];
      NarPrefixFree(n, m, y[|x|..], []);
    }
    PrefixFreeIsDecodable(archives);
  }

  /** A hidden continuation has a recognisable form: it is a multiple of eight bytes and begins with the export
      magic, like the tail it imitates. */
  lemma HiddenGapsAreAligned(gap: seq<Byte>)
    requires Hides(gap)
    ensures |gap| % 8 == 0 && |gap| >= 8 && gap[..8] == U64Bytes(EXPORT_MAGIC)
  {
    hide ExportTail, LE;
    var a: Import, b: Import :| |a.references| < U64 && |b.references| < U64 && ExportTail(a) == gap + ExportTail(b);
    TailAligned(a);
    TailAligned(b);
    assert |ExportTail(a)| == |gap| + |ExportTail(b)|;
    MultipleOfEight(|ExportTail(a)|, |gap|, |ExportTail(b)|);
    assert gap[..8] == ExportTail(a)[..8];
  }

  lemma MultipleOfEight(all: nat, gap: nat, rest: nat)
    requires all == gap + rest && all % 8 == 0 && rest % 8 == 0 && gap > 0
    ensures gap % 8 == 0 && gap >= 8
  {
  }

  lemma TailAligned(d: Import)
    requires |d.references| < U64
    ensures |ExportTail(d)| % 8 == 0 && |ExportTail(d)| >= 8 && ExportTail(d)[..8] == U64Bytes(EXPORT_MAGIC)
  {
    hide LE;
    StringsAligned(d.references);
    PaddingAligns(|d.storePath|);
    PaddingAligns(|DeriverOrEmpty(d)|);
    EightsAddUp(|Padded(d.storePath)|, |Strings(d.references)|, |Padded(DeriverOrEmpty(d))|);
  }

  lemma EightsAddUp(p: nat, s: nat, v: nat)
    requires p % 8 == 0 && s % 8 == 0 && v % 8 == 0
    ensures (8 + p + (8 + s) + v + 8 + 8) % 8 == 0
  {
  }

  lemma {:induction false} StringsAligned(ss: seq<Bytes>)
    ensures |Strings(ss)| % 8 == 0
  {
    if ss != [] {
      StringsAligned(ss[1..]);
      PaddingAligns(|ss[0]|);
      AlignedSum(|Padded(ss[0])|, |Strings(ss[1..])|);
    }
  }

  /** Without a well-formed archive the stream can be read in two ways: the archive has no length, so its
      end can be moved. */
  lemma IllFormedArchivesCollide() returns (a: Import, b: Import)
    ensures |a.references| < U64 && |b.references| < U64
    ensures a.narData != b.narData && ExportBytes(a) == ExportBytes(b)
  {
    hide LE;
    var m, z := U64Bytes(EXPORT_MAGIC), U64Bytes(0);
    var sixteen: Bytes := m + z;
    a := Import([], sixteen, [], None);
    b := Import(m + U64Bytes(16), [], [], None);
    EmptyPadded();
    assert Padding(16) == 0 && Padded(sixteen) == U64Bytes(16) + sixteen + [];
    assert ExportTail(a) == m + (U64Bytes(16) + (m + z)) + (z + []) + z + z + z;
    assert ExportTail(b) == m + z + (z + []) + z + z + z;
    assert U64Bytes(1) + [] + ExportTail(a) == U64Bytes(1) + (m + U64Bytes(16)) + ExportTail(b);
  }

  lemma EmptyPadded()
    ensures Padded([]) == U64Bytes(0) && Strings([]) == []
  {
    assert Padding(0) == 0;
    assert Padded([]) == U64Bytes(0) + [] + [];
  }
}
