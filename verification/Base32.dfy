/** Nix base32 (iroh-nix/src/hash_index.rs:84-107, iroh-nix/src/http_cache.rs:189-228 and
    iroh-nix/src/nix_info.rs:97-129): one encoder and two decoders, least significant digit last.
 */
module Base32 {
  import opened Common
  import opened Wire
  import opened Bits

  const ALPHABET := "0123456789abcdfghijklmnpqrsvwxyz"

  type Digit = d: int | 0 <= d < 32

  /** sum of digit_n * 32^n */
  function Value32(ds: seq<Digit>): nat {
    if ds == [] then 0 else ds[0] + 32 * Value32(ds[1..])
  }

  // --- Bits of byte strings and digit strings ----------------------------------------------------------------

  /** Bit p of a little-endian byte string is bit p%8 of byte p/8. */
  lemma {:induction false} ByteStringBit(bs: seq<Byte>, p: nat)
    ensures Bit(FromLE(bs), p) == (p / 8 < |bs| && Bit(bs[p / 8], p % 8))
  {
    if bs == [] {
      BitZero(p);
    } else {
      ShlEight(FromLE(bs[1..]));
      BitConcat(bs[0], FromLE(bs[1..]), 8, p);
      if p >= 8 { ByteStringBit(bs[1..], p - 8); }
    }
  }

  lemma {:induction false} DigitStringBit(ds: seq<Digit>, p: nat)
    ensures Bit(Value32(ds), p) == (p / 5 < |ds| && Bit(ds[p / 5], p % 5))
  {
    if ds == [] {
      BitZero(p);
    } else {
      ShlFive(Value32(ds[1..]));
      BitConcat(ds[0], Value32(ds[1..]), 5, p);
      if p >= 5 { DigitStringBit(ds[1..], p - 5); }
    }
  }

  lemma DigitHighBits(d: Digit, j: nat)
    requires j >= 5
    ensures !Bit(d, j)
  {
    ShlFive(0);
    SmallHasNoBit(d, 5, j);
  }

  lemma ByteHighBits(b: Byte, j: nat)
    requires j >= 8
    ensures !Bit(b, j)
  {
    ShlEight(0);
    SmallHasNoBit(b, 8, j);
  }

  // --- The encoder -------------------------------------------------------------------------------------------

  /** hash_index.rs:95-102: five bits from one byte, or from two. */
  function DigitAt(hash: seq<Byte>, n: nat): nat
    requires 5 * n / 8 < |hash|
  {
    var byteIdx, bitIdx := 5 * n / 8, 5 * n % 8;
    var c := Low(Shr(hash[byteIdx], bitIdx), 5);
    if bitIdx > 3 && byteIdx + 1 < |hash| then Or(c, Low(Low(Shl(hash[byteIdx + 1], 8 - bitIdx), 8), 5)) else c
  }

  /** Digit n holds bits 5n to 5n+4 of the number. */
  lemma DigitBits(hash: seq<Byte>, n: nat, j: nat)
    requires 5 * n / 8 < |hash|
    ensures Bit(DigitAt(hash, n), j) == (j < 5 && Bit(FromLE(hash), 5 * n + j))
  {
    hide Bit, Shr, Shl, Low, Or, FromLE;
    var byteIdx, bitIdx := 5 * n / 8, 5 * n % 8;
    var x := hash[byteIdx];
    var c := Low(Shr(x, bitIdx), 5);
    BitLow(Shr(x, bitIdx), 5, j);
    BitShr(x, bitIdx, j);
    ByteStringBit(hash, 5 * n + j);
    if bitIdx + j >= 8 { ByteHighBits(x, bitIdx + j); }
    if bitIdx > 3 && byteIdx + 1 < |hash| {
      var y := hash[byteIdx + 1];
      var up := Shl(y, 8 - bitIdx);
      BitOr(c, Low(Low(up, 8), 5), j);
      BitLow(Low(up, 8), 5, j);
      BitLow(up, 8, j);
      BitShl(y, 8 - bitIdx, j);
    }
  }

  lemma DigitIsSmall(hash: seq<Byte>, n: nat)
    requires 5 * n / 8 < |hash|
    ensures DigitAt(hash, n) < 32
  {
    hide Bit, DigitAt;
    var d := DigitAt(hash, n);
    forall j: nat | j >= 5 ensures !Bit(d, j) { DigitBits(hash, n, j); }
    LowKeeps(d, 5);
    LowBound(d, 5);
    ShlFive(0);
  }

  // --- Characters --------------------------------------------------------------------------------------------

  function Position(s: string, c: char): (r: Option<nat>)
    ensures r.Some? ==> r.value < |s| && s[r.value] == c
    ensures r.None? ==> c !in s
  {
    if s == [] then None
    else if s[0] == c then Some(0)
    else match Position(s[1..], c) { case Some(i) => Some(i + 1) case None => None }
  }

  function DigitOf(c: char): (r: Option<Digit>)
    ensures r.Some? ==> ALPHABET[r.value] == c
    ensures r.None? ==> c !in ALPHABET
  {
    Position(ALPHABET, c)
  }

  /** The ten digits and the lower-case letters without e, o, t and u, in ascending order. */
  function LetterOf(d: Digit): char {
    if d < 10 then ('0' as int + d) as char
    else if d < 14 then ('a' as int + d - 10) as char
    else if d < 23 then ('f' as int + d - 14) as char
    else if d < 27 then ('p' as int + d - 23) as char
    else ('v' as int + d - 27) as char
  }

  lemma AlphabetAt(d: Digit)
    ensures ALPHABET[d] == LetterOf(d)
  {
  }

  predicate Letter(c: char) { '0' <= c <= '9' || ('a' <= c <= 'z' && c != 'e' && c != 'o' && c != 't' && c != 'u') }

  lemma LetterPosition(c: char) returns (d: Digit)
    requires Letter(c)
    ensures LetterOf(d) == c
  {
    var n := c as int;
    d := if n <= 57 then n - 48 else if n <= 100 then n - 87 else if n <= 110 then n - 88 else if n <= 115 then n - 89 else n - 91;
  }

  lemma LetterOfIsLetter(d: Digit)
    ensures Letter(LetterOf(d))
  {
  }

  lemma AlphabetIs(c: char)
    ensures c in ALPHABET <==> Letter(c)
  {
    hide LetterOf, Letter;
    if c in ALPHABET {
      var i :| 0 <= i < |ALPHABET| && ALPHABET[i] == c;
      AlphabetAt(i);
      LetterOfIsLetter(i);
    }
    if Letter(c) {
      var d := LetterPosition(c);
      AlphabetAt(d);
    }
  }

  lemma AlphabetAscends(i: nat, j: nat)
    requires i < j < 32
    ensures ALPHABET[i] < ALPHABET[j]
  {
    var a := ALPHABET;
    assert a[0] < a[1] < a[2] < a[3] < a[4] < a[5] < a[6] < a[7] < a[8] < a[9] < a[10];
    assert a[10] < a[11] < a[12] < a[13] < a[14] < a[15] < a[16] < a[17] < a[18] < a[19] < a[20];
    assert a[20] < a[21] < a[22] < a[23] < a[24] < a[25] < a[26] < a[27] < a[28] < a[29] < a[30] < a[31];
  }

  lemma DigitOfLetter(d: Digit)
    ensures DigitOf(ALPHABET[d]) == Some(d) && ALPHABET[d] as int < 128
  {
    var r := DigitOf(ALPHABET[d]);
    assert ALPHABET[d] in ALPHABET;
    if r.value < d { AlphabetAscends(r.value, d); }
    if d < r.value { AlphabetAscends(d, r.value); }
    if d < 31 { AlphabetAscends(d, 31); }
  }

  predicate IsBase32(s: string) { forall c :: c in s ==> c in ALPHABET }

  function DigitOrZero(c: char): Digit { match DigitOf(c) { case Some(d) => d case None => 0 } }

  /** The digits of a string, least significant (last character) first. */
  function Digits(s: string): (r: seq<Digit>)
    ensures |r| == |s|
  {
    seq(|s|, n requires 0 <= n < |s| => DigitOrZero(s[|s| - 1 - n]))
  }

  type Hash = h: seq<Byte> | |h| == 32 witness Zeros(32)

  function LetterAt(hash: seq<Byte>, n: nat): char
    requires 5 * n / 8 < |hash|
  {
    DigitIsSmall(hash, n);
    ALPHABET[DigitAt(hash, n)]
  }

  /** hash_index.rs:84-107: 52 characters whose value in base 32 is the hash as a little-endian number. */
  method ToNixBase32(hash: Hash) returns (out: string)
    ensures |out| == 52 && IsBase32(out) && Value32(Digits(out)) == FromLE(hash)
    ensures out == NixBase32(hash)
  {
    hide DigitAt;
    out := "";
    var n := 52;
    while n > 0
      invariant 0 <= n <= 52 && |out| == 52 - n
      invariant forall m :: n <= m < 52 ==> out[51 - m] == LetterAt(hash, m)
    {
      n := n - 1;
      DigitIsSmall(hash, n);
      out := out + [ALPHABET[DigitAt(hash, n)]];
    }
    EncodedValue(hash, out);
    forall k | 0 <= k < 52 ensures out[k] == NixBase32(hash)[k] {
      assert out[51 - (51 - k)] == LetterAt(hash, 51 - k);
    }
  }

  lemma EncodedValue(hash: Hash, out: string)
    requires |out| == 52 && forall m :: 0 <= m < 52 ==> out[51 - m] == LetterAt(hash, m)
    ensures IsBase32(out) && Value32(Digits(out)) == FromLE(hash)
  {
    hide DigitAt, Bit, Value32, FromLE, DigitOrZero, LetterAt;
    var ds := Digits(out);
    forall m | 0 <= m < 52 ensures ds[m] == DigitAt(hash, m) { LetterIsDigit(hash, m); }
    forall c | c in out ensures c in ALPHABET {
      var k :| 0 <= k < |out| && out[k] == c;
      LetterIsDigit(hash, 51 - k);
      assert out[51 - (51 - k)] == LetterAt(hash, 51 - k);
    }
    forall p: nat ensures Bit(Value32(ds), p) == Bit(FromLE(hash), p) { SameBitAsHash(hash, ds, p); }
    SameBits(Value32(ds), FromLE(hash));
  }

  lemma LetterIsDigit(hash: seq<Byte>, n: nat)
    requires 5 * n / 8 < |hash|
    ensures LetterAt(hash, n) in ALPHABET && DigitOrZero(LetterAt(hash, n)) == DigitAt(hash, n)
  {
    hide DigitAt;
    DigitIsSmall(hash, n);
    DigitOfLetter(DigitAt(hash, n));
  }

  lemma SameBitAsHash(hash: Hash, ds: seq<Digit>, p: nat)
    requires |ds| == 52 && forall m :: 0 <= m < 52 ==> ds[m] == DigitAt(hash, m)
    ensures Bit(Value32(ds), p) == Bit(FromLE(hash), p)
  {
    hide DigitAt, Bit, Value32, FromLE;
    DigitStringBit(ds, p);
    if p / 5 < 52 {
      DigitBits(hash, p / 5, p % 5);
    } else {
      ByteStringBit(hash, p);
    }
  }

  /** The base32 text of a hash. */
  function NixBase32(hash: Hash): (s: string)
    ensures |s| == 52
  {
    seq(52, k requires 0 <= k < 52 => LetterAt(hash, 51 - k))
  }

  lemma NixBase32Encodes(hash: Hash)
    ensures IsBase32(NixBase32(hash)) && Value32(Digits(NixBase32(hash))) == FromLE(hash)
  {
    EncodedValue(hash, NixBase32(hash));
  }

  // --- The decoders --------------------------------------------------------------------------------------------

  lemma {:induction false} LowBytesBit(n: nat, k: nat, p: nat)
    ensures Bit(FromLE(LE(n, k)), p) == (p < 8 * k && Bit(n, p))
  {
    if k == 0 {
      BitZero(p);
    } else {
      var tail := LE(n / 256, k - 1);
      assert LE(n, k)[1..] == tail;
      ShlEight(FromLE(tail));
      BitConcat(n % 256, FromLE(tail), 8, p);
      ShlEight(n / 256);
      BitConcat(n % 256, n / 256, 8, p);
      if p >= 8 { LowBytesBit(n / 256, k - 1, p - 8); }
    }
  }

  /** A byte string is fixed by its bits. */
  lemma BytesFromBits(bs: seq<Byte>, v: nat)
    requires forall i, q :: 0 <= i < |bs| && 0 <= q < 8 ==> Bit(bs[i], q) == Bit(v, 8 * i + q)
    ensures bs == LE(v, |bs|)
  {
    hide Bit, FromLE, LE;
    forall p: nat ensures Bit(FromLE(bs), p) == Bit(FromLE(LE(v, |bs|)), p) {
      ByteStringBit(bs, p);
      LowBytesBit(v, |bs|, p);
      if p / 8 < |bs| { assert Bit(bs[p / 8], p % 8) == Bit(v, 8 * (p / 8) + p % 8); }
    }
    SameBits(FromLE(bs), FromLE(LE(v, |bs|)));
    LEInvertsFromLE(bs);
    LEInvertsFromLE(LE(v, |bs|));
  }

  lemma OrStaysByte(a: Byte, b: Byte)
    ensures Or(a, b) < 256
  {
    hide Or, Bit, Low;
    forall j: nat | j >= 8 ensures !Bit(Or(a, b), j) {
      BitOr(a, b, j);
      ByteHighBits(a, j);
      ByteHighBits(b, j);
    }
    LowKeeps(Or(a, b), 8);
    LowBound(Or(a, b), 8);
    ShlEight(0);
  }

  function OrByte(a: Byte, b: Byte): Byte {
    OrStaysByte(a, b);
    Or(a, b)
  }

  /** `(d << k) as u8` */
  function ShlByte(d: Digit, k: nat): Byte {
    LowBound(Shl(d, k), 8);
    ShlEight(0);
    Low(Shl(d, k), 8)
  }

  /** http_cache.rs:215-224, nix_info.rs:116-125: OR digit number n into the byte string. */
  function OrDigit(bs: seq<Byte>, n: nat, d: Digit): (r: seq<Byte>)
    ensures |r| == |bs|
  {
    var byteIdx, bitIdx := 5 * n / 8, 5 * n % 8;
    var r := if byteIdx < |bs| then bs[byteIdx := OrByte(bs[byteIdx], ShlByte(d, bitIdx))] else bs;
    if bitIdx > 3 && byteIdx + 1 < |bs| then r[byteIdx + 1 := OrByte(r[byteIdx + 1], Shr(d, 8 - bitIdx))] else r
  }

  /** The digit lands on bits 5n to 5n+4, as far as the byte string reaches. */
  lemma OrDigitBits(bs: seq<Byte>, n: nat, d: Digit, i: nat, q: nat)
    requires i < |bs| && q < 8
    ensures Bit(OrDigit(bs, n, d)[i], q) ==
            (Bit(bs[i], q) || (5 * n <= 8 * i + q < 5 * n + 5 && Bit(d, 8 * i + q - 5 * n)))
  {
    hide Bit, Or, Shl, Shr, Low;
    var byteIdx, bitIdx := 5 * n / 8, 5 * n % 8;
    if i == byteIdx {
      BitOr(bs[i], ShlByte(d, bitIdx), q);
      BitLow(Shl(d, bitIdx), 8, q);
      BitShl(d, bitIdx, q);
      if q >= bitIdx + 5 { DigitHighBits(d, q - bitIdx); }
    } else if i == byteIdx + 1 && bitIdx > 3 {
      BitOr(bs[i], Shr(d, 8 - bitIdx), q);
      BitShr(d, 8 - bitIdx, q);
      if q + 8 - bitIdx >= 5 { DigitHighBits(d, q + 8 - bitIdx); }
    }
  }

  /** The bits of `v` from digit n on are in place, and no others. */
  ghost predicate PlacedFrom(bs: seq<Byte>, v: nat, n: nat) {
    forall i, q :: 0 <= i < |bs| && 0 <= q < 8 ==> Bit(bs[i], q) == (8 * i + q >= 5 * n && Bit(v, 8 * i + q))
  }

  /** The bits of `v` below digit n are in place, and no others. */
  ghost predicate PlacedBelow(bs: seq<Byte>, v: nat, n: nat) {
    forall i, q :: 0 <= i < |bs| && 0 <= q < 8 ==> Bit(bs[i], q) == (8 * i + q < 5 * n && Bit(v, 8 * i + q))
  }

  lemma DigitInValue(ds: seq<Digit>, n: nat, p: nat)
    requires n < |ds| && 5 * n <= p < 5 * n + 5
    ensures Bit(ds[n], p - 5 * n) == Bit(Value32(ds), p)
  {
    hide Bit, Value32;
    DigitStringBit(ds, p);
  }

  lemma PlaceDown(bs: seq<Byte>, ds: seq<Digit>, n: nat)
    requires n < |ds| && PlacedFrom(bs, Value32(ds), n + 1)
    ensures PlacedFrom(OrDigit(bs, n, ds[n]), Value32(ds), n)
  {
    hide Bit, Value32, OrDigit;
    forall i, q | 0 <= i < |bs| && 0 <= q < 8
      ensures Bit(OrDigit(bs, n, ds[n])[i], q) == (8 * i + q >= 5 * n && Bit(Value32(ds), 8 * i + q))
    {
      OrDigitBits(bs, n, ds[n], i, q);
      if 5 * n <= 8 * i + q < 5 * n + 5 { DigitInValue(ds, n, 8 * i + q); }
    }
  }

  lemma PlaceUp(bs: seq<Byte>, ds: seq<Digit>, n: nat)
    requires n < |ds| && PlacedBelow(bs, Value32(ds), n)
    ensures PlacedBelow(OrDigit(bs, n, ds[n]), Value32(ds), n + 1)
  {
    hide Bit, Value32, OrDigit;
    forall i, q | 0 <= i < |bs| && 0 <= q < 8
      ensures Bit(OrDigit(bs, n, ds[n])[i], q) == (8 * i + q < 5 * (n + 1) && Bit(Value32(ds), 8 * i + q))
    {
      OrDigitBits(bs, n, ds[n], i, q);
      if 5 * n <= 8 * i + q < 5 * n + 5 { DigitInValue(ds, n, 8 * i + q); }
    }
  }

  lemma NothingPlaced(bs: seq<Byte>, ds: seq<Digit>)
    requires forall i :: 0 <= i < |bs| ==> bs[i] == 0
    ensures PlacedFrom(bs, Value32(ds), |ds|) && PlacedBelow(bs, Value32(ds), 0)
  {
    hide Bit, Value32;
    forall i, q | 0 <= i < |bs| && 0 <= q < 8
      ensures !Bit(bs[i], q) && (8 * i + q >= 5 * |ds| ==> !Bit(Value32(ds), 8 * i + q))
    {
      BitZero(q);
      DigitStringBit(ds, 8 * i + q);
    }
  }

  lemma AllPlaced(bs: seq<Byte>, ds: seq<Digit>)
    requires PlacedFrom(bs, Value32(ds), 0) || PlacedBelow(bs, Value32(ds), |ds|)
    ensures bs == LE(Value32(ds), |bs|)
  {
    hide Bit, Value32, LE;
    forall i, q | 0 <= i < |bs| && 0 <= q < 8 ensures Bit(bs[i], q) == Bit(Value32(ds), 8 * i + q) {
      DigitStringBit(ds, 8 * i + q);
    }
    BytesFromBits(bs, Value32(ds));
  }

  method OrInto(out: array<Byte>, n: nat, d: Digit)
    modifies out
    ensures out[..] == OrDigit(old(out[..]), n, d)
  {
    hide OrByte, ShlByte, Shr;
    var byteIdx, bitIdx := 5 * n / 8, 5 * n % 8;
    if byteIdx < out.Length { out[byteIdx] := OrByte(out[byteIdx], ShlByte(d, bitIdx)); }
    if bitIdx > 3 && byteIdx + 1 < out.Length { out[byteIdx + 1] := OrByte(out[byteIdx + 1], Shr(d, 8 - bitIdx)); }
  }

  /** http_cache.rs:189-228, at any length: the value of the digits, cut to 5*len/8 bytes. */
  method DecodeNixBase32(s: string) returns (r: Option<seq<Byte>>)
    ensures r == if IsBase32(s) then Some(LE(Value32(Digits(s)), 5 * |s| / 8)) else None
  {
    hide OrDigit, Value32, PlacedFrom, PlacedBelow, LE, DigitOf, Digits;
    var outLen := 5 * |s| / 8;
    var out := new Byte[outLen](_ => 0);
    ghost var ds := Digits(s);
    NothingPlaced(out[..], ds);
    var n := |s|;
    while n > 0
      invariant 0 <= n <= |s| && fresh(out)
      invariant forall k :: 0 <= k < |s| - n ==> s[k] in ALPHABET
      invariant PlacedFrom(out[..], Value32(ds), n)
    {
      n := n - 1;
      var c := s[|s| - 1 - n];
      if c as int >= 128 {
        NotALetter(c);
        return None;
      }
      var digit := DigitOf(c);
      if digit.None? { return None; }
      KnownDigit(s, n);
      PlaceDown(out[..], ds, n);
      OrInto(out, n, digit.value);
    }
    AllPlaced(out[..], ds);
    r := Some(out[..]);
  }

  lemma KnownDigit(s: string, n: nat)
    requires n < |s|
    ensures DigitOf(s[|s| - 1 - n]).Some? ==> Digits(s)[n] == DigitOf(s[|s| - 1 - n]).value
  {
    hide DigitOf;
    var c := s[|s| - 1 - n];
    assert Digits(s)[n] == DigitOrZero(c);
  }

  lemma NotALetter(c: char)
    requires c as int >= 128
    ensures c !in ALPHABET
  {
    if c in ALPHABET {
      var d :| 0 <= d < 32 && ALPHABET[d] == c;
      DigitOfLetter(d);
    }
  }

  /** The number of bytes of a character in UTF-8. */
  function Utf8Size(c: char): nat {
    var n := c as int;
    if n < 0x80 then 1 else if n < 0x800 then 2 else if n < 0x10000 then 3 else 4
  }

  /** `str::len` */
  function Utf8Length(s: string): nat {
    if s == "" then 0 else Utf8Size(s[0]) + Utf8Length(s[1..])
  }

  /** `c as u8`: the low byte of the code point, as a character. */
  function LowByte(c: char): char { (c as int % 256) as char }

  function LowBytes(s: string): string {
    seq(|s|, i requires 0 <= i < |s| => LowByte(s[i]))
  }

  /** 52 bytes of text, each character cut to its low byte. */
  function Nix32Hash(s: string): Option<seq<Byte>> {
    if Utf8Length(s) == 52 && IsBase32(LowBytes(s)) then Some(LE(Value32(Digits(LowBytes(s))), 32)) else None
  }

  /** nix_info.rs:97-129: the length check counts bytes, and each character is cut to its low byte. */
  method DecodeNix32(s: string) returns (r: Option<seq<Byte>>)
    ensures r == Nix32Hash(s)
  {
    hide OrDigit, Value32, PlacedFrom, PlacedBelow, LE, DigitOf, LowByte, Utf8Length, Digits, IsBase32, LettersFrom;
    if Utf8Length(s) != 52 { return None; }
    var out := new Byte[32](_ => 0);
    ghost var low := LowBytes(s);
    ghost var ds := Digits(low);
    NothingPlaced(out[..], ds);
    NoLetters(low);
    var i := 0;
    while i < |s|
      invariant 0 <= i <= |s| && fresh(out)
      invariant LettersFrom(low, |s| - i)
      invariant PlacedBelow(out[..], Value32(ds), i)
    {
      var c := s[|s| - 1 - i];
      var digit := DigitOf(LowByte(c));
      if digit.None? {
        NotBase32(low, |s| - 1 - i);
        return None;
      }
      KnownDigit(low, i);
      MoreLetters(low, |s| - 1 - i);
      PlaceUp(out[..], ds, i);
      OrInto(out, i, digit.value);
      i := i + 1;
    }
    AllPlaced(out[..], ds);
    LettersOnly(low);
    r := Some(out[..]);
  }

  lemma NotBase32(s: string, k: nat)
    requires k < |s| && s[k] !in ALPHABET
    ensures !IsBase32(s)
  {
    assert s[k] in s;
  }

  /** From position m on there are only letters of the alphabet. */
  ghost predicate LettersFrom(s: string, m: nat) { forall k :: m <= k < |s| ==> s[k] in ALPHABET }

  lemma NoLetters(s: string)
    ensures LettersFrom(s, |s|)
  {
  }

  lemma MoreLetters(s: string, m: nat)
    requires m < |s| && LettersFrom(s, m + 1) && s[m] in ALPHABET
    ensures LettersFrom(s, m)
  {
  }

  lemma LettersOnly(s: string)
    requires LettersFrom(s, 0)
    ensures IsBase32(s)
  {
  }

  // --- Round trips ---------------------------------------------------------------------------------------------

  /** What `ToNixBase32` promises of its result. */
  ghost predicate Encodes(s: string, hash: Hash) {
    |s| == 52 && IsBase32(s) && Value32(Digits(s)) == FromLE(hash)
  }

  lemma {:induction false} Pow256IsPow2(k: nat)
    ensures Pow256(k) == Pow2(8 * k)
  {
    if k > 0 {
      Pow256IsPow2(k - 1);
      var m := 8 * (k - 1);
      assert Pow2(m + 4) == 16 * Pow2(m) by { assert Pow2(m + 2) == 4 * Pow2(m); }
      assert Pow2(m + 8) == 16 * Pow2(m + 4) by { assert Pow2(m + 6) == 4 * Pow2(m + 4); }
    }
  }

  /** Cutting a number to k little-endian bytes is reduction modulo 256^k. */
  lemma LowBytesAreRemainder(n: nat, k: nat)
    ensures FromLE(LE(n, k)) == n % Pow256(k)
  {
    hide Bit, LE, FromLE, Low, Pow2, Pow256;
    forall p: nat ensures Bit(FromLE(LE(n, k)), p) == Bit(Low(n, 8 * k), p) {
      LowBytesBit(n, k, p);
      BitLow(n, 8 * k, p);
    }
    SameBits(FromLE(LE(n, k)), Low(n, 8 * k));
    LowIsMod(n, 8 * k);
    Pow256IsPow2(k);
  }

  /** What the first decoder computes, as a number. */
  lemma DecodedValue(s: string)
    ensures FromLE(LE(Value32(Digits(s)), 5 * |s| / 8)) == Value32(Digits(s)) % Pow256(5 * |s| / 8)
  {
    hide Value32, Digits, LE, FromLE, Pow256;
    LowBytesAreRemainder(Value32(Digits(s)), 5 * |s| / 8);
  }

  /** Decoding inverts encoding. */
  lemma DecodeInvertsEncode(s: string, hash: Hash)
    requires Encodes(s, hash)
    ensures LE(Value32(Digits(s)), 5 * |s| / 8) == hash
  {
    LEInvertsFromLE(hash);
  }

  lemma {:induction false} SameValueSameDigits(a: seq<Digit>, b: seq<Digit>)
    requires |a| == |b| && Value32(a) == Value32(b)
    ensures a == b
  {
    if a != [] {
      var x, y := Value32(a[1..]), Value32(b[1..]);
      assert a[0] + 32 * x == b[0] + 32 * y;
      assert a[0] == b[0] && x == y;
      SameValueSameDigits(a[1..], b[1..]);
      assert a == [a[0]] + a[1..] && b == [b[0]] + b[1..];
    }
  }

  lemma LetterOfDigit(s: string, k: nat)
    requires IsBase32(s) && k < |s|
    ensures s[k] == ALPHABET[Digits(s)[|s| - 1 - k]]
  {
    hide DigitOf;
    assert Digits(s)[|s| - 1 - k] == DigitOrZero(s[k]);
    assert s[k] in s;
  }

  /** A number has at most one numeral of a given length. */
  lemma NumeralIsUnique(s: string, t: string)
    requires |s| == |t| && IsBase32(s) && IsBase32(t) && Value32(Digits(s)) == Value32(Digits(t))
    ensures s == t
  {
    hide IsBase32, Digits, Value32;
    SameValueSameDigits(Digits(s), Digits(t));
    forall k | 0 <= k < |s| ensures s[k] == t[k] {
      LetterOfDigit(s, k);
      LetterOfDigit(t, k);
    }
  }

  lemma TopDigit(ds: seq<Digit>)
    requires |ds| == 52
    ensures FromLE(LE(Value32(ds), 32)) == Value32(ds) <==> ds[51] <= 1
  {
    hide Bit, LE, FromLE, Value32;
    var v := Value32(ds);
    if ds[51] <= 1 {
      forall p: nat ensures Bit(FromLE(LE(v, 32)), p) == Bit(v, p) {
        LowBytesBit(v, 32, p);
        DigitStringBit(ds, p);
        if 256 <= p < 260 { SmallDigit(ds[51], p % 5); }
      }
      SameBits(FromLE(LE(v, 32)), v);
    } else {
      var j := SomeHighBit(ds[51]);
      DigitStringBit(ds, 255 + j);
      LowBytesBit(v, 32, 255 + j);
    }
  }

  lemma SmallDigit(d: Digit, j: nat)
    requires d <= 1 && j > 0
    ensures !Bit(d, j)
  {
    BitZero(j - 1);
  }

  lemma SomeHighBit(d: Digit) returns (j: nat)
    requires d > 1
    ensures 0 < j < 5 && Bit(d, j)
  {
    if forall k: nat :: 0 < k < 5 ==> !Bit(d, k) {
      forall k: nat ensures Bit(d, k) == Bit(d % 2, k) {
        if k >= 5 { DigitHighBits(d, k); }
        if k > 0 { SmallDigit(d % 2, k); }
      }
      SameBits(d, d % 2);
    }
    j :| 0 < j < 5 && Bit(d, j);
  }

  lemma ZeroOrOne(s: string)
    requires |s| == 52 && IsBase32(s)
    ensures Digits(s)[51] <= 1 <==> s[0] == '0' || s[0] == '1'
  {
    LetterOfDigit(s, 0);
    var d := Digits(s)[51];
    assert ALPHABET[0] == '0' && ALPHABET[1] == '1';
    if d > 1 { AlphabetAscends(1, d); AlphabetAscends(0, 1); }
  }

  /** Encoding inverts decoding on 52 characters exactly when the first one is '0' or '1': any other
      first character carries bits above the 256th, which the decoder drops. */
  lemma EncodeInvertsDecodeExactly(s: string, back: string)
    requires |s| == 52 && IsBase32(s) && Encodes(back, LE(Value32(Digits(s)), 32))
    ensures back == s <==> s[0] == '0' || s[0] == '1'
  {
    hide IsBase32, Digits, Value32, LE, FromLE;
    TopDigit(Digits(s));
    ZeroOrOne(s);
    if Value32(Digits(back)) == Value32(Digits(s)) { NumeralIsUnique(back, s); }
  }

  // --- The two decoders compared -------------------------------------------------------------------------------

  /** http_cache.rs:165-169: 52 bytes of text, decoded to exactly 32 bytes. */
  function HttpHash(s: string): Option<seq<Byte>> {
    if Utf8Length(s) == 52 && IsBase32(s) && 5 * |s| / 8 == 32 then Some(LE(Value32(Digits(s)), 32)) else None
  }

  method ParseSha256Base32(s: string) returns (r: Option<seq<Byte>>)
    ensures r == HttpHash(s)
  {
    hide LE, Value32, Digits;
    r := None;
    if Utf8Length(s) == 52 {
      var decoded := DecodeNixBase32(s);
      if decoded.Some? && |decoded.value| == 32 { r := decoded; }
    }
  }

  predicate Ascii(s: string) { forall i :: 0 <= i < |s| ==> s[i] as int < 128 }

  lemma {:induction false} AsciiLength(s: string)
    requires Ascii(s)
    ensures Utf8Length(s) == |s|
  {
    if s != "" { AsciiLength(s[1..]); }
  }

  lemma LowByteAscii(c: char)
    requires c as int < 128
    ensures LowByte(c) == c
  {
  }

  lemma LetterIsAscii(s: string, i: nat)
    requires IsBase32(s) && i < |s|
    ensures s[i] as int < 128
  {
    if s[i] as int >= 128 { NotALetter(s[i]); }
  }

  lemma LettersAreAscii(s: string)
    requires IsBase32(s)
    ensures Ascii(s) && Utf8Length(s) == |s|
  {
    hide IsBase32, Utf8Length;
    forall i | 0 <= i < |s| ensures s[i] as int < 128 { LetterIsAscii(s, i); }
    AsciiLength(s);
  }

  lemma LowBytesOfAscii(s: string)
    requires Ascii(s)
    ensures LowBytes(s) == s
  {
    forall i | 0 <= i < |s| ensures LowByte(s[i]) == s[i] { LowByteAscii(s[i]); }
  }

  /** Both decoders recover every hash from its text. */
  lemma BothDecodersInvertEncode(hash: Hash)
    ensures HttpHash(NixBase32(hash)) == Some(hash) && Nix32Hash(NixBase32(hash)) == Some(hash)
  {
    hide IsBase32, Digits, Value32, LE, FromLE, NixBase32, LowBytes, Ascii, Utf8Length;
    var s := NixBase32(hash);
    NixBase32Encodes(hash);
    LettersAreAscii(s);
    LowBytesOfAscii(s);
    DecodeInvertsEncode(s, hash);
  }

  /** A text that decodes is printed back unchanged exactly when its first character is '0' or '1'; otherwise
      the decoder has dropped the top bits. */
  lemma ReencodeExactly(s: string)
    requires HttpHash(s).Some?
    ensures |HttpHash(s).value| == 32 && |s| == 52
    ensures NixBase32(HttpHash(s).value) == s <==> s[0] == '0' || s[0] == '1'
  {
    hide IsBase32, Digits, Value32, LE, FromLE, NixBase32, Ascii, Utf8Length;
    LettersAreAscii(s);
    var hash := HttpHash(s).value;
    NixBase32Encodes(hash);
    EncodeInvertsDecodeExactly(s, NixBase32(hash));
  }

  /** The decoders agree on a text of 52 bytes exactly when it is ASCII or has a character whose low byte
      is no base32 digit: the second one also reads some non-ASCII characters as digits. */
  lemma DecodersAgreeExactly(s: string)
    requires Utf8Length(s) == 52
    ensures HttpHash(s) == Nix32Hash(s) <==> Ascii(s) || !IsBase32(LowBytes(s))
  {
    hide Value32, LE, Digits, Utf8Length, LowByte;
    if Ascii(s) {
      AsciiLength(s);
      forall i | 0 <= i < |s| ensures LowByte(s[i]) == s[i] { LowByteAscii(s[i]); }
      assert LowBytes(s) == s;
    } else {
      var i :| 0 <= i < |s| && s[i] as int >= 128;
      NotALetter(s[i]);
      assert s[i] in s;
    }
  }

  function Repeat(c: char, n: nat): string { if n == 0 then "" else [c] + Repeat(c, n - 1) }

  lemma {:induction false} RepeatFacts(c: char, n: nat)
    requires c as int < 128 && c in ALPHABET
    ensures Utf8Length(Repeat(c, n)) == n && |Repeat(c, n)| == n
    ensures forall i :: 0 <= i < n ==> Repeat(c, n)[i] == c
  {
    if n > 0 { RepeatFacts(c, n - 1); }
  }

  /** U+0130 followed by fifty zeros: one decoder rejects it, the other reads it as the zero hash. */
  lemma DecodersCanDisagree() returns (s: string)
    ensures Utf8Length(s) == 52 && HttpHash(s) == None && Nix32Hash(s).Some?
  {
    hide Value32, LE, Digits, Repeat;
    var zeros := Repeat('0', 50);
    assert ALPHABET[0] == '0';
    RepeatFacts('0', 50);
    s := ['\U{0130}'] + zeros;
    assert s[1..] == zeros;
    NotALetter('\U{0130}');
    assert s[0] in s;
    LowBytesAreZeros(s);
  }

  lemma LowBytesAreZeros(s: string)
    requires |s| == 51 && s[0] == '\U{0130}' && forall i :: 1 <= i < 51 ==> s[i] == '0'
    ensures IsBase32(LowBytes(s))
  {
    var low := LowBytes(s);
    assert ALPHABET[0] == '0';
    forall c | c in low ensures c == '0' {
      var i :| 0 <= i < |low| && low[i] == c;
      assert c == LowByte(s[i]);
    }
  }
}
