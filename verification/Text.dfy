/** The string operations of the standard library that the narinfo and index code rests on. */
module Text {
  import opened Common
  import opened Wire

  /** `char::is_whitespace`: the Unicode White_Space property. */
  predicate White(c: char) {
    var n := c as int;
    || 0x9 <= n <= 0xD || n == 0x20 || n == 0x85 || n == 0xA0 || n == 0x1680 || 0x2000 <= n <= 0x200A
    || n == 0x2028 || n == 0x2029 || n == 0x202F || n == 0x205F || n == 0x3000
  }

  function TrimStart(s: string): string {
    if s == "" || !White(s[0]) then s else TrimStart(s[1..])
  }

  function TrimEnd(s: string): string {
    if s == "" || !White(s[|s| - 1]) then s else TrimEnd(s[..|s| - 1])
  }

  function Trim(s: string): string { TrimEnd(TrimStart(s)) }

  /** No whitespace at either end. */
  predicate Trimmed(s: string) { s == "" || (!White(s[0]) && !White(s[|s| - 1])) }

  lemma {:induction false} TrimStartShape(s: string) returns (k: nat)
    ensures k <= |s| && TrimStart(s) == s[k..]
    ensures TrimStart(s) == "" || !White(TrimStart(s)[0])
  {
    if s == "" || !White(s[0]) {
      k := 0;
    } else {
      k := TrimStartShape(s[1..]);
      k := k + 1;
    }
  }

  lemma {:induction false} TrimEndShape(s: string) returns (k: nat)
    ensures k <= |s| && TrimEnd(s) == s[..k]
    ensures TrimEnd(s) == "" || !White(TrimEnd(s)[|TrimEnd(s)| - 1])
  {
    if s == "" || !White(s[|s| - 1]) {
      k := |s|;
    } else {
      k := TrimEndShape(s[..|s| - 1]);
    }
  }

  /** Trimming yields a trimmed string made of characters of the original, and keeps trimmed ones. */
  lemma TrimTrims(s: string)
    ensures Trimmed(Trim(s)) && (forall c :: c in Trim(s) ==> c in s)
    ensures Trimmed(s) ==> Trim(s) == s
  {
    var k := TrimStartShape(s);
    var m := TrimEndShape(TrimStart(s));
  }

  ghost predicate AllWhite(s: string) { forall i :: 0 <= i < |s| ==> White(s[i]) }

  /** Trimming takes exactly the whitespace around. */
  lemma TrimExactly(s: string, t: string)
    ensures Trim(s) == t <==> Trimmed(t) && exists a, b :: AllWhite(a) && AllWhite(b) && s == a + t + b
  {
    hide White, Trim, AllWhite, Trimmed;
    if Trim(s) == t {
      var a, b := TrimSplits(s);
    }
    if Trimmed(t) && exists a, b :: AllWhite(a) && AllWhite(b) && s == a + t + b {
      var a, b :| AllWhite(a) && AllWhite(b) && s == a + t + b;
      TrimInside(a, t, b);
    }
  }

  lemma TrimSplits(s: string) returns (a: string, b: string)
    ensures Trimmed(Trim(s)) && AllWhite(a) && AllWhite(b) && s == a + Trim(s) + b
  {
    hide White, AllWhite, Trimmed, TrimStart, TrimEnd;
    TrimIsTrimmed(s);
    var k := TrimStartTakesWhite(s);
    var rest := s[k..];
    var m := TrimEndTakesWhite(rest);
    a, b := s[..k], rest[m..];
    CutTwice(s, k, m);
  }

  lemma TrimIsTrimmed(s: string)
    ensures Trimmed(Trim(s))
  {
    TrimTrims(s);
  }

  lemma CutTwice(s: string, k: nat, m: nat)
    requires k <= |s| && m <= |s| - k
    ensures s == s[..k] + s[k..][..m] + s[k..][m..]
  {
  }

  lemma TrimInside(a: string, t: string, b: string)
    requires AllWhite(a) && Trimmed(t) && AllWhite(b)
    ensures Trim(a + t + b) == t
  {
    hide White;
    SkipsWhite(a, t + b);
    assert a + (t + b) == a + t + b;
    if t == "" {
      SkipsWhite(b, "");
      assert b + "" == t + b;
    } else {
      assert TrimStart(t + b) == t + b;
      SkipsWhiteAfter(t, b);
    }
  }

  lemma {:induction false} TrimStartTakesWhite(s: string) returns (k: nat)
    ensures k <= |s| && TrimStart(s) == s[k..] && AllWhite(s[..k])
  {
    hide White;
    if s == "" || !White(s[0]) {
      k := 0;
    } else {
      k := TrimStartTakesWhite(s[1..]);
      assert s[..k + 1] == [s[0]] + s[1..][..k];
      k := k + 1;
    }
  }

  lemma {:induction false} TrimEndTakesWhite(s: string) returns (k: nat)
    ensures k <= |s| && TrimEnd(s) == s[..k] && AllWhite(s[k..])
  {
    hide White;
    if s == "" || !White(s[|s| - 1]) {
      k := |s|;
    } else {
      var front := s[..|s| - 1];
      k := TrimEndTakesWhite(front);
      WhiteEnd(s, k);
    }
  }

  lemma WhiteEnd(s: string, k: nat)
    requires k < |s| && AllWhite(s[..|s| - 1][k..]) && White(s[|s| - 1])
    ensures AllWhite(s[k..])
  {
    hide White;
    var front := s[..|s| - 1];
    forall i | 0 <= i < |s[k..]| ensures White(s[k..][i]) {
      if i < |s| - 1 - k { assert front[k..][i] == s[k..][i]; }
    }
  }

  lemma {:induction false} SkipsWhite(a: string, s: string)
    requires AllWhite(a)
    ensures TrimStart(a + s) == TrimStart(s)
  {
    if a == "" {
      assert a + s == s;
    } else {
      assert (a + s)[1..] == a[1..] + s;
      SkipsWhite(a[1..], s);
    }
  }

  lemma {:induction false} SkipsWhiteAfter(t: string, b: string)
    requires AllWhite(b) && t != "" && !White(t[|t| - 1])
    ensures TrimEnd(t + b) == t
  {
    var s := t + b;
    if b == "" {
      assert s == t;
    } else {
      assert s[..|s| - 1] == t + b[..|b| - 1] && s[|s| - 1] == b[|b| - 1];
      SkipsWhiteAfter(t, b[..|b| - 1]);
    }
  }

  /** In ASCII text, whitespace is the space and the five controls from tab to carriage return. */
  lemma AsciiWhite(c: char)
    requires c as int < 128
    ensures White(c) <==> c == ' ' || '\t' <= c <= '\r'
  {
  }

  // --- Lines -----------------------------------------------------------------------------------------------

  /** `split_once`: around the first occurrence. */
  function SplitOnce(s: string, c: char): Option<(string, string)> {
    if s == "" then None
    else if s[0] == c then Some(("", s[1..]))
    else match SplitOnce(s[1..], c)
      case None => None
      case Some(p) => Some(([s[0]] + p.0, p.1))
  }

  lemma {:induction false} SplitsOnce(a: string, c: char, b: string)
    requires c !in a
    ensures SplitOnce(a + [c] + b, c) == Some((a, b))
  {
    var s := a + [c] + b;
    if a == "" {
      assert s == [c] + b && s[1..] == b;
    } else {
      assert s[1..] == a[1..] + [c] + b;
      SplitsOnce(a[1..], c, b);
      assert [a[0]] + a[1..] == a;
    }
  }

  lemma {:induction false} SplitOncePieces(s: string, c: char)
    ensures SplitOnce(s, c).None? ==> c !in s
    ensures SplitOnce(s, c).Some? ==> SplitOnce(s, c).value.0 + [c] + SplitOnce(s, c).value.1 == s
  {
    if s != "" {
      SplitOncePieces(s[1..], c);
      assert s == [s[0]] + s[1..];
      if s[0] != c && SplitOnce(s[1..], c).Some? {
        var p := SplitOnce(s[1..], c).value;
        assert [s[0]] + p.0 + [c] + p.1 == [s[0]] + (p.0 + [c] + p.1);
      }
    }
  }

  /** `str::lines`.  A carriage return before the line feed is kept here; the parser trims it away. */
  function Lines(s: string): seq<string>
    decreases |s|
  {
    if s == "" then []
    else match SplitOnce(s, '\n')
      case None => [s]
      case Some(p) => SplitOncePieces(s, '\n'); [p.0] + Lines(p.1)
  }

  function Unlines(ls: seq<string>): string {
    if ls == [] then "" else ls[0] + "\n" + Unlines(ls[1..])
  }

  lemma {:induction false} LinesOfUnlines(ls: seq<string>)
    requires forall l :: l in ls ==> '\n' !in l
    ensures Lines(Unlines(ls)) == ls
  {
    if ls != [] {
      LinesOfUnlines(ls[1..]);
      assert ls[0] in ls;
      SplitsOnce(ls[0], '\n', Unlines(ls[1..]));
      assert ls[0] + "\n" + Unlines(ls[1..]) == ls[0] + ['\n'] + Unlines(ls[1..]);
    }
  }

  lemma {:induction false} LinesHaveNoNewline(s: string)
    ensures forall l :: l in Lines(s) ==> '\n' !in l
    decreases |s|
  {
    if s != "" {
      SplitOncePieces(s, '\n');
      SplitOnceFirst(s, '\n');
      if SplitOnce(s, '\n').Some? { LinesHaveNoNewline(SplitOnce(s, '\n').value.1); }
    }
  }

  lemma {:induction false} SplitOnceFirst(s: string, c: char)
    ensures SplitOnce(s, c).Some? ==> c !in SplitOnce(s, c).value.0
  {
    if s != "" { SplitOnceFirst(s[1..], c); }
  }

  // --- Words -------------------------------------------------------------------------------------------------

  /** The longest front part without whitespace. */
  function FirstWord(s: string): (w: string)
    ensures |w| <= |s|
  {
    if s == "" || White(s[0]) then "" else [s[0]] + FirstWord(s[1..])
  }

  /** `split_whitespace`: the maximal runs of other characters. */
  function SplitWords(s: string): seq<string>
    decreases |s|
  {
    if s == "" then []
    else if White(s[0]) then SplitWords(s[1..])
    else
      var w := FirstWord(s);
      [w] + SplitWords(s[|w|..])
  }

  /** Non-empty and without whitespace. */
  predicate Word(s: string) { s != "" && forall i :: 0 <= i < |s| ==> !White(s[i]) }

  function JoinWords(ws: seq<string>): string {
    if ws == [] then "" else if |ws| == 1 then ws[0] else ws[0] + " " + JoinWords(ws[1..])
  }

  lemma {:induction false} FirstWordOf(w: string, rest: string)
    requires forall i :: 0 <= i < |w| ==> !White(w[i])
    requires rest == "" || White(rest[0])
    ensures FirstWord(w + rest) == w
  {
    if w == "" {
      assert w + rest == rest;
    } else {
      assert (w + rest)[1..] == w[1..] + rest;
      FirstWordOf(w[1..], rest);
      assert [w[0]] + w[1..] == w;
    }
  }

  lemma {:induction false} FirstWordIsWord(s: string)
    ensures forall i :: 0 <= i < |FirstWord(s)| ==> !White(FirstWord(s)[i])
  {
    if s != "" && !White(s[0]) { FirstWordIsWord(s[1..]); }
  }

  lemma {:induction false} SplitInvertsJoin(ws: seq<string>)
    requires forall w :: w in ws ==> Word(w)
    ensures SplitWords(JoinWords(ws)) == ws
  {
    if ws != [] {
      var rest := if |ws| == 1 then "" else " " + JoinWords(ws[1..]);
      var s := JoinWords(ws);
      assert ws[0] in ws;
      assert s == ws[0] + rest;
      FirstWordOf(ws[0], rest);
      assert s[|ws[0]|..] == rest;
      if |ws| > 1 {
        SplitInvertsJoin(ws[1..]);
        assert rest[1..] == JoinWords(ws[1..]);
      }
      assert ws == [ws[0]] + ws[1..];
    }
  }

  lemma {:induction false} SplitYieldsWords(s: string)
    ensures forall w :: w in SplitWords(s) ==> Word(w)
    decreases |s|
  {
    if s != "" {
      if White(s[0]) {
        SplitYieldsWords(s[1..]);
      } else {
        FirstWordIsWord(s);
        SplitYieldsWords(s[|FirstWord(s)|..]);
      }
    }
  }

  lemma {:induction false} JoinedWordsAreTrimmed(ws: seq<string>)
    requires forall w :: w in ws ==> Word(w)
    ensures Trimmed(JoinWords(ws)) && '\n' !in JoinWords(ws) && (ws != [] ==> JoinWords(ws) != "")
  {
    if ws != [] {
      assert ws[0] in ws;
      assert '\n' !in ws[0];
      if |ws| > 1 { JoinedWordsAreTrimmed(ws[1..]); }
    }
  }

  /** Any single whitespace character separates words. */
  lemma SplitAtWhite(w: string, c: char, rest: string)
    requires Word(w) && White(c)
    ensures SplitWords(w + [c] + rest) == [w] + SplitWords(rest)
    ensures SplitWords([c] + rest) == SplitWords(rest)
  {
    hide White;
    var tail := [c] + rest;
    assert w + [c] + rest == w + tail;
    FirstWordOf(w, tail);
    assert (w + tail)[|w|..] == tail && tail[1..] == rest;
    assert SplitWords(w + tail) == [w] + SplitWords(tail);
  }

  // --- Prefixes ------------------------------------------------------------------------------------------------

  function StripPrefix(s: string, prefix: string): Option<string> {
    if prefix <= s then Some(s[|prefix|..]) else None
  }

  /** `trim_start_matches` and `trim_end_matches`: every copy of the pattern at that end goes. */
  function DropFront(s: string, p: string): string
    requires p != ""
  {
    if p <= s then DropFront(s[|p|..], p) else s
  }

  function DropBack(s: string, p: string): string
    requires p != ""
    decreases |s|
  {
    if |p| <= |s| && s[|s| - |p|..] == p then DropBack(s[..|s| - |p|], p) else s
  }

  /** One copy at each end of a middle that has none. */
  lemma DropBoth(front: string, mid: string, back: string)
    requires front != "" && back != "" && mid != "" && mid[0] != front[0] && mid[|mid| - 1] != back[|back| - 1]
    ensures DropBack(DropFront(front + mid + back, front), back) == mid
  {
    var rest := mid + back;
    assert front + mid + back == front + rest && (front + rest)[|front|..] == rest;
    assert rest[0] == mid[0];
    assert rest[|rest| - |back|..] == back && rest[..|rest| - |back|] == mid;
    assert |back| <= |mid| ==> mid[|mid| - |back|..][|back| - 1] == mid[|mid| - 1];
  }

  // --- Decimal numbers -----------------------------------------------------------------------------------------

  function DigitChar(d: nat): char
    requires d < 10
  {
    ('0' as int + d) as char
  }

  function Decimal(n: nat): string {
    if n < 10 then [DigitChar(n)] else Decimal(n / 10) + [DigitChar(n % 10)]
  }

  predicate IsDigit(c: char) { '0' <= c <= '9' }

  function DecimalValue(s: string): nat
    requires forall i :: 0 <= i < |s| ==> IsDigit(s[i])
  {
    if s == "" then 0 else assert IsDigit(s[|s| - 1]); 10 * DecimalValue(s[..|s| - 1]) + (s[|s| - 1] as int - '0' as int)
  }

  /** `str::parse::<u64>`: an optional plus sign, digits, no overflow. */
  function ParseU64(s: string): Option<nat> {
    var digits := if s != "" && s[0] == '+' then s[1..] else s;
    if digits == "" || !AllDigits(digits) then None
    else
      var n := DecimalValue(digits);
      if n < U64 then Some(n) else None
  }

  lemma {:induction false} DecimalDigits(n: nat)
    ensures Decimal(n) != "" && forall i :: 0 <= i < |Decimal(n)| ==> IsDigit(Decimal(n)[i])
    ensures DecimalValue(Decimal(n)) == n
  {
    if n >= 10 {
      DecimalDigits(n / 10);
      var s := Decimal(n);
      assert s[..|s| - 1] == Decimal(n / 10);
    }
  }

  lemma ParsesDecimal(n: nat)
    requires n < U64
    ensures ParseU64(Decimal(n)) == Some(n)
  {
    DecimalDigits(n);
  }

  function Pow10(k: nat): nat { if k == 0 then 1 else 10 * Pow10(k - 1) }

  predicate AllDigits(s: string) { forall i :: 0 <= i < |s| ==> IsDigit(s[i]) }

  /** Decimal notation is positional, most significant digit first. */
  lemma {:induction false} DecimalPositional(a: string, b: string)
    requires AllDigits(a) && AllDigits(b)
    ensures AllDigits(a + b) && DecimalValue(a + b) == DecimalValue(a) * Pow10(|b|) + DecimalValue(b)
    decreases |b|
  {
    if b == "" {
      assert a + b == a;
    } else {
      var s, front := a + b, b[..|b| - 1];
      assert s[..|s| - 1] == a + front;
      DecimalPositional(a, front);
      hide IsDigit;
      OneMoreDigit(DecimalValue(a), Pow10(|front|), DecimalValue(front), b[|b| - 1] as int - '0' as int);
    }
  }

  lemma OneMoreDigit(x: nat, p: nat, y: nat, d: int)
    ensures 10 * (x * p + y) + d == x * (10 * p) + (10 * y + d)
  {
  }

  lemma DigitValues(d: nat)
    requires d < 10
    ensures DigitChar(d) == "0123456789"[d] && DecimalValue([DigitChar(d)]) == d
  {
  }

  /** A number is read from its digits, with or without a plus sign in front, and only if it fits 64 bits. */
  lemma ParseU64Exactly(s: string, n: nat)
    ensures ParseU64(s) == Some(n) <==>
            n < U64 && exists d :: d != "" && AllDigits(d) && (s == d || s == "+" + d) && DecimalValue(d) == n
  {
    hide IsDigit;
    var digits := if s != "" && s[0] == '+' then s[1..] else s;
    if ParseU64(s) == Some(n) {
      assert AllDigits(digits);
      assert s == digits || s == "+" + digits;
    }
    if d :| d != "" && AllDigits(d) && (s == d || s == "+" + d) && DecimalValue(d) == n {
      PlusIsNoDigit(d);
      assert digits == d;
    }
  }

  lemma PlusIsNoDigit(d: string)
    requires AllDigits(d) && d != ""
    ensures d[0] != '+'
  {
    assert IsDigit(d[0]);
  }
}
