/** The NAR format (iroh-nix/src/nar.rs:94-259): the token sequence of a file tree, and a parser that
    inverts it.  The repository only writes NARs; the parser is the inverse that shows what a NAR
    determines.
 */
module Nar {
  import opened Common
  import opened Wire

  // --- Trees ---------------------------------------------------------------------------------------------

  datatype Node =
    | Symlink(target: Bytes)
    | Regular(executable: bool, contents: Bytes)
    | Directory(entries: seq<Named<Node>>)

  /** A directory entry. */
  datatype Named<+T> = Named(name: Bytes, item: T)

  // --- Tokens --------------------------------------------------------------------------------------------

  const MAGIC: Bytes := [110, 105, 120, 45, 97, 114, 99, 104, 105, 118, 101, 45, 49]  // nix-archive-1
  const OPEN: Bytes := [40]                                                  // (
  const CLOSE: Bytes := [41]                                                 // )
  const TYPE: Bytes := [116, 121, 112, 101]
  const SYMLINK: Bytes := [115, 121, 109, 108, 105, 110, 107]
  const TARGET: Bytes := [116, 97, 114, 103, 101, 116]
  const DIRECTORY: Bytes := [100, 105, 114, 101, 99, 116, 111, 114, 121]
  const ENTRY: Bytes := [101, 110, 116, 114, 121]
  const NAME: Bytes := [110, 97, 109, 101]
  const NODE: Bytes := [110, 111, 100, 101]
  const REGULAR: Bytes := [114, 101, 103, 117, 108, 97, 114]
  const EXECUTABLE: Bytes := [101, 120, 101, 99, 117, 116, 97, 98, 108, 101]
  const CONTENTS: Bytes := [99, 111, 110, 116, 101, 110, 116, 115]
  const EMPTY: Bytes := []

  /** The tokens of a node, followed by `k`. */
  function NodeTokens(n: Node, k: Tokens): Tokens
    decreases n, 1
  {
    Cons(OPEN, Cons(TYPE, BodyTokens(n, Cons(CLOSE, k))))
  }

  function BodyTokens(n: Node, k: Tokens): Tokens
    decreases n, 0
  {
    match n
    case Symlink(target) => Cons(SYMLINK, Cons(TARGET, Cons(target, k)))
    case Regular(x, contents) =>
      var tail := Cons(CONTENTS, Cons(contents, k));
      Cons(REGULAR, if x then Cons(EXECUTABLE, Cons(EMPTY, tail)) else tail)
    case Directory(entries) => Cons(DIRECTORY, EntriesTokens(entries, k))
  }

  function EntriesTokens(es: seq<Named<Node>>, k: Tokens): Tokens
    decreases es, 0
  {
    if es == [] then k
    else
      var after := Cons(CLOSE, EntriesTokens(es[1..], k));
      Cons(ENTRY, Cons(OPEN, Cons(NAME, Cons(es[0].name, Cons(NODE, NodeTokens(es[0].item, after))))))
  }

  /** nar.rs:94-99 */
  function NarBytes(n: Node): seq<Byte> { Frame(Cons(MAGIC, NodeTokens(n, Nil))) }

  // --- The parser ------------------------------------------------------------------------------------------

  datatype Parsed<+T> = Bad | Ok(value: T, rest: Tokens)

  predicate At(ts: Tokens, word: Bytes) { ts.Cons? && ts.head == word }

  function ParseNode(ts: Tokens): (r: Parsed<Node>)
    ensures r.Ok? ==> r.rest < ts
    decreases ts, 1
  {
    if !(At(ts, OPEN) && At(ts.tail, TYPE)) then Bad
    else match ParseBody(ts.tail.tail)
      case Bad => Bad
      case Ok(n, rest) => if At(rest, CLOSE) then Ok(n, rest.tail) else Bad
  }

  function ParseBody(ts: Tokens): (r: Parsed<Node>)
    ensures r.Ok? ==> r.rest < ts
    decreases ts, 0
  {
    if At(ts, SYMLINK) && At(ts.tail, TARGET) && ts.tail.tail.Cons? then
      Ok(Symlink(ts.tail.tail.head), ts.tail.tail.tail)
    else if At(ts, REGULAR) && At(ts.tail, EXECUTABLE) && At(ts.tail.tail, EMPTY) then
      ParseContents(true, ts.tail.tail.tail)
    else if At(ts, REGULAR) then ParseContents(false, ts.tail)
    else if At(ts, DIRECTORY) then
      match ParseEntries(ts.tail)
      case Bad => Bad
      case Ok(es, rest) => Ok(Directory(es), rest)
    else Bad
  }

  function ParseContents(x: bool, ts: Tokens): (r: Parsed<Node>)
    ensures r.Ok? ==> r.rest < ts
  {
    if At(ts, CONTENTS) && ts.tail.Cons? then Ok(Regular(x, ts.tail.head), ts.tail.tail) else Bad
  }

  function ParseEntries(ts: Tokens): (r: Parsed<seq<Named<Node>>>)
    ensures r.Ok? ==> r.rest == ts || r.rest < ts
    decreases ts, 2
  {
    if !At(ts, ENTRY) then Ok([], ts)
    else if !(At(ts.tail, OPEN) && At(ts.tail.tail, NAME) && ts.tail.tail.tail.Cons? && At(ts.tail.tail.tail.tail, NODE)) then Bad
    else
      var name := ts.tail.tail.tail.head;
      match ParseNode(ts.tail.tail.tail.tail.tail)
      case Bad => Bad
      case Ok(n, rest) =>
        if !At(rest, CLOSE) then Bad
        else match ParseEntries(rest.tail)
          case Bad => Bad
          case Ok(es, rest') => Ok([Named(name, n)] + es, rest')
  }

  // --- Parsing inverts writing ---------------------------------------------------------------------------

  lemma {:induction false} ParsesNode(n: Node, k: Tokens)
    ensures ParseNode(NodeTokens(n, k)) == Ok(n, k)
    decreases n, 1
  {
    ParsesBody(n, Cons(CLOSE, k));
  }

  lemma {:induction false} ParsesBody(n: Node, k: Tokens)
    requires At(k, CLOSE)
    ensures ParseBody(BodyTokens(n, k)) == Ok(n, k)
    decreases n, 0
  {
    match n
    case Symlink(_) =>
    case Regular(_, _) =>
    case Directory(es) => ParsesEntries(es, k);
  }

  lemma {:induction false} ParsesEntries(es: seq<Named<Node>>, k: Tokens)
    requires At(k, CLOSE)
    ensures ParseEntries(EntriesTokens(es, k)) == Ok(es, k)
    decreases es, 0
  {
    if es != [] {
      var after := Cons(CLOSE, EntriesTokens(es[1..], k));
      ParsesNode(es[0].item, after);
      ParsesEntries(es[1..], k);
      assert [Named(es[0].name, es[0].item)] + es[1..] == es;
    }
  }

  // --- Writing inverts parsing ---------------------------------------------------------------------------

  lemma {:induction false} NodeWasWritten(ts: Tokens)
    requires ParseNode(ts).Ok?
    ensures ts == NodeTokens(ParseNode(ts).value, ParseNode(ts).rest)
    decreases ts, 1
  {
    BodyWasWritten(ts.tail.tail);
  }

  lemma {:induction false} BodyWasWritten(ts: Tokens)
    requires ParseBody(ts).Ok?
    ensures ts == BodyTokens(ParseBody(ts).value, ParseBody(ts).rest)
    decreases ts, 0
  {
    if At(ts, DIRECTORY) { EntriesWereWritten(ts.tail); }
  }

  lemma {:induction false} EntriesWereWritten(ts: Tokens)
    requires ParseEntries(ts).Ok?
    ensures ts == EntriesTokens(ParseEntries(ts).value, ParseEntries(ts).rest)
    decreases ts, 2
  {
    if At(ts, ENTRY) {
      var inner := ts.tail.tail.tail.tail.tail;
      var r := ParseNode(inner);
      NodeWasWritten(inner);
      EntriesWereWritten(r.rest.tail);
      var e := ParseEntries(r.rest.tail);
      assert ([Named(ts.tail.tail.tail.head, r.value)] + e.value)[1..] == e.value;
    }
  }

  // --- Concatenation ---------------------------------------------------------------------------------------

  lemma {:induction false} NodeTokensAppend(n: Node, k: Tokens, t: Tokens)
    ensures Append(NodeTokens(n, k), t) == NodeTokens(n, Append(k, t))
    decreases n, 1
  {
    BodyTokensAppend(n, Cons(CLOSE, k), t);
    assert Append(Cons(TYPE, BodyTokens(n, Cons(CLOSE, k))), t) == Cons(TYPE, Append(BodyTokens(n, Cons(CLOSE, k)), t));
  }

  lemma {:induction false} BodyTokensAppend(n: Node, k: Tokens, t: Tokens)
    ensures Append(BodyTokens(n, k), t) == BodyTokens(n, Append(k, t))
    decreases n, 0
  {
    match n
    case Symlink(target) => AppendThree(SYMLINK, TARGET, target, k, t);
    case Regular(x, contents) =>
      var tail := Cons(CONTENTS, Cons(contents, k));
      assert Append(tail, t) == Cons(CONTENTS, Cons(contents, Append(k, t)));
      if x { AppendThree(REGULAR, EXECUTABLE, EMPTY, tail, t); }
    case Directory(es) => EntriesTokensAppend(es, k, t);
  }

  lemma AppendThree(a: Bytes, b: Bytes, c: Bytes, k: Tokens, t: Tokens)
    ensures Append(Cons(a, Cons(b, Cons(c, k))), t) == Cons(a, Cons(b, Cons(c, Append(k, t))))
  {
    assert Append(Cons(c, k), t) == Cons(c, Append(k, t));
    assert Append(Cons(b, Cons(c, k)), t) == Cons(b, Append(Cons(c, k), t));
  }

  lemma {:induction false} EntriesTokensAppend(es: seq<Named<Node>>, k: Tokens, t: Tokens)
    ensures Append(EntriesTokens(es, k), t) == EntriesTokens(es, Append(k, t))
    decreases es, 0
  {
    if es != [] {
      var after := Cons(CLOSE, EntriesTokens(es[1..], k));
      EntriesTokensAppend(es[1..], k, t);
      NodeTokensAppend(es[0].item, after, t);
      var inner := Cons(NODE, NodeTokens(es[0].item, after));
      assert Append(inner, t) == Cons(NODE, Append(NodeTokens(es[0].item, after), t));
      assert Append(after, t) == Cons(CLOSE, Append(EntriesTokens(es[1..], k), t));
      AppendThree(OPEN, NAME, es[0].name, inner, t);
    }
  }

  lemma FrameNode(n: Node, k: Tokens)
    ensures Frame(NodeTokens(n, k)) == Frame(NodeTokens(n, Nil)) + Frame(k)
  {
    NodeTokensAppend(n, Nil, k);
    FrameAppend(NodeTokens(n, Nil), k);
  }

  // --- Byte order of names ---------------------------------------------------------------------------------

  /** Strict lexicographic order on byte strings, the order of file names. */
  predicate Below(a: seq<Byte>, b: seq<Byte>) {
    b != [] && (a == [] || a[0] < b[0] || (a[0] == b[0] && Below(a[1..], b[1..])))
  }

  lemma {:induction false} BelowTransitive(a: seq<Byte>, b: seq<Byte>, c: seq<Byte>)
    requires Below(a, b) && Below(b, c)
    ensures Below(a, c)
  {
    if a != [] && a[0] == b[0] == c[0] { BelowTransitive(a[1..], b[1..], c[1..]); }
  }

  lemma {:induction false} BelowIrreflexive(a: seq<Byte>)
    ensures !Below(a, a)
  {
    if a != [] { BelowIrreflexive(a[1..]); }
  }

  lemma {:induction false} BelowTotal(a: seq<Byte>, b: seq<Byte>)
    ensures a == b || Below(a, b) || Below(b, a)
  {
    if a != [] && b != [] && a[0] == b[0] {
      BelowTotal(a[1..], b[1..]);
      assert a == [a[0]] + a[1..] && b == [b[0]] + b[1..];
    }
  }

  /** The names agree on their first n bytes, and then the first one ends or has the smaller byte. */
  predicate FirstDiffer(a: seq<Byte>, b: seq<Byte>, n: nat) {
    n <= |a| && n < |b| && a[..n] == b[..n] && (n == |a| || a[n] < b[n])
  }

  ghost predicate InByteOrder(a: seq<Byte>, b: seq<Byte>) { exists n: nat :: FirstDiffer(a, b, n) }

  /** The order of names is: smaller at the first differing byte, or a proper prefix. */
  lemma {:induction false} BelowExactly(a: seq<Byte>, b: seq<Byte>)
    ensures Below(a, b) <==> InByteOrder(a, b)
  {
    if a == [] || b == [] || a[0] != b[0] {
      assert FirstDiffer(a, b, 0) == Below(a, b);
      forall n: nat | n > 0 ensures !FirstDiffer(a, b, n) {
        if n <= |a| && n < |b| { assert a[..n][0] == a[0] && b[..n][0] == b[0]; }
      }
    } else {
      BelowExactly(a[1..], b[1..]);
      if n: nat :| FirstDiffer(a[1..], b[1..], n) {
        assert a[..n + 1] == [a[0]] + a[1..][..n] && b[..n + 1] == [b[0]] + b[1..][..n];
        assert FirstDiffer(a, b, n + 1);
      }
      if n: nat :| FirstDiffer(a, b, n) {
        assert a[..n][1..] == a[1..][..n - 1] && b[..n][1..] == b[1..][..n - 1];
        assert FirstDiffer(a[1..], b[1..], n - 1);
      }
    }
  }

  /** The same, for names written out: a smaller byte after a common part goes first, and so does a name that
      another one continues. */
  lemma SmallerByteFirst(p: seq<Byte>, x: Byte, s: seq<Byte>, y: Byte, t: seq<Byte>)
    ensures x < y ==> Below(p + [x] + s, p + [y] + t)
    ensures Below(p, p + [x] + s)
  {
    var a, b := p + [x] + s, p + [y] + t;
    assert a[..|p|] == p && b[..|p|] == p;
    assert x < y ==> FirstDiffer(a, b, |p|);
    assert FirstDiffer(p, a, |p|);
    BelowExactly(a, b);
    BelowExactly(p, a);
  }

  // --- Sorting a directory listing -------------------------------------------------------------------------

  ghost predicate SortedNames<T>(s: seq<Named<T>>) {
    forall i, j :: 0 <= i < j < |s| ==> Below(s[i].name, s[j].name)
  }

  ghost predicate DistinctNames<T>(s: seq<Named<T>>) {
    forall i, j :: 0 <= i < j < |s| ==> s[i].name != s[j].name
  }

  /** Stable insertion by name. */
  function Insert<T>(e: Named<T>, s: seq<Named<T>>): seq<Named<T>> {
    if s == [] || !Below(s[0].name, e.name) then [e] + s else [s[0]] + Insert(e, s[1..])
  }

  /** nar.rs:167: `sort_by_key` on the file name. */
  function SortNames<T>(s: seq<Named<T>>): seq<Named<T>> {
    if s == [] then [] else Insert(s[0], SortNames(s[1..]))
  }

  lemma {:induction false} InsertKeeps<T>(e: Named<T>, s: seq<Named<T>>)
    ensures multiset(Insert(e, s)) == multiset(s) + multiset{e}
  {
    if s != [] {
      assert s == [s[0]] + s[1..];
      if Below(s[0].name, e.name) { InsertKeeps(e, s[1..]); }
    }
  }

  lemma {:induction false} SortKeeps<T>(s: seq<Named<T>>)
    ensures multiset(SortNames(s)) == multiset(s)
  {
    if s != [] {
      SortKeeps(s[1..]);
      InsertKeeps(s[0], SortNames(s[1..]));
      assert s == [s[0]] + s[1..];
    }
  }

  lemma {:induction false} InsertSorts<T>(e: Named<T>, s: seq<Named<T>>)
    requires SortedNames(s) && forall x :: x in s ==> x.name != e.name
    ensures SortedNames(Insert(e, s))
  {
    var r := Insert(e, s);
    if s == [] {
    } else if Below(s[0].name, e.name) {
      InsertSorts(e, s[1..]);
      var tail := Insert(e, s[1..]);
      InsertKeeps(e, s[1..]);
      forall x | x in tail ensures Below(s[0].name, x.name) {
        assert x in multiset(tail);
        assert x == e || x in s[1..];
      }
      PrependSorted(s[0], tail);
    } else {
      BelowTotal(s[0].name, e.name);
      forall x | x in s ensures Below(e.name, x.name) {
        var i :| 0 <= i < |s| && s[i] == x;
        if i > 0 { BelowTransitive(e.name, s[0].name, x.name); }
      }
      PrependSorted(e, s);
    }
  }

  lemma PrependSorted<T>(e: Named<T>, s: seq<Named<T>>)
    requires SortedNames(s) && forall x :: x in s ==> Below(e.name, x.name)
    ensures SortedNames([e] + s)
  {
  }

  lemma {:induction false} SortSorts<T>(s: seq<Named<T>>)
    requires DistinctNames(s)
    ensures SortedNames(SortNames(s))
  {
    if s != [] {
      SortSorts(s[1..]);
      SortKeeps(s[1..]);
      var tail := SortNames(s[1..]);
      forall x | x in tail ensures x.name != s[0].name {
        assert x in multiset(tail);
        assert x in s[1..];
      }
      InsertSorts(s[0], tail);
    }
  }

  /** A strictly sorted sequence is determined by its elements. */
  lemma {:induction false} SortedUnique<T>(a: seq<Named<T>>, b: seq<Named<T>>)
    requires SortedNames(a) && SortedNames(b) && multiset(a) == multiset(b)
    ensures a == b
  {
    hide SortedNames, Below;
    SameLength(a, b);
    if a != [] {
      SameFirst(a, b);
      TailMultiset(a);
      TailMultiset(b);
      TailSorted(a);
      TailSorted(b);
      SortedUnique(a[1..], b[1..]);
      assert a == [a[0]] + a[1..] && b == [b[0]] + b[1..];
    }
  }

  lemma SameLength<T>(a: seq<T>, b: seq<T>)
    requires multiset(a) == multiset(b)
    ensures |a| == |b|
  {
    assert |multiset(a)| == |a| && |multiset(b)| == |b|;
  }

  lemma TailSorted<T>(s: seq<Named<T>>)
    requires s != [] && SortedNames(s)
    ensures SortedNames(s[1..])
  {
  }

  lemma SameFirst<T>(a: seq<Named<T>>, b: seq<Named<T>>)
    requires a != [] && b != [] && SortedNames(a) && SortedNames(b) && multiset(a) == multiset(b)
    ensures a[0] == b[0]
  {
    assert a[0] in multiset(b) && b[0] in multiset(a);
    FirstIsLeast(a, b[0]);
    FirstIsLeast(b, a[0]);
    if a[0] != b[0] {
      BelowTransitive(a[0].name, b[0].name, a[0].name);
      BelowIrreflexive(a[0].name);
    }
  }

  lemma FirstIsLeast<T>(s: seq<Named<T>>, x: Named<T>)
    requires SortedNames(s) && x in s
    ensures x == s[0] || Below(s[0].name, x.name)
  {
    var i :| 0 <= i < |s| && s[i] == x;
  }

  lemma DistinctPermutation<T>(a: seq<Named<T>>, b: seq<Named<T>>)
    requires DistinctNames(a) && multiset(a) == multiset(b)
    ensures SortNames(a) == SortNames(b) && DistinctNames(b)
  {
    PermutationDistinct(a, b);
    SortSorts(a);
    SortSorts(b);
    SortKeeps(a);
    SortKeeps(b);
    SortedUnique(SortNames(a), SortNames(b));
  }

  lemma PermutationDistinct<T>(a: seq<Named<T>>, b: seq<Named<T>>)
    requires DistinctNames(a) && multiset(a) == multiset(b)
    ensures DistinctNames(b)
  {
    forall i, j | 0 <= i < j < |b| ensures b[i].name != b[j].name {
      if b[i].name == b[j].name {
        assert b[i] in multiset(a) && b[j] in multiset(a);
        var p :| 0 <= p < |a| && a[p] == b[i];
        var q :| 0 <= q < |a| && a[q] == b[j];
        assert p == q;
        TwiceInMultiset(b, i, j);
        OnceInMultiset(a, p);
      }
    }
  }

  lemma TwiceInMultiset<T>(s: seq<T>, i: nat, j: nat)
    requires i < j < |s| && s[i] == s[j]
    ensures multiset(s)[s[i]] >= 2
  {
    assert s == s[..j] + s[j..];
    assert s[..j][i] == s[i] && s[j..][0] == s[j];
  }

  lemma OnceInMultiset<T>(s: seq<Named<T>>, p: nat)
    requires DistinctNames(s) && p < |s|
    ensures multiset(s)[s[p]] == 1
  {
    assert s == s[..p] + [s[p]] + s[p + 1..];
    assert s[p] !in s[..p] && s[p] !in s[p + 1..];
  }
}
