/** What a NAR determines: serialising a file tree (iroh-nix/src/nar.rs:94-259) is uniquely decodable,
    prefix-free, aligned, and independent of the order in which directories are read.
 */
module NarTree {
  import Bits
  import opened Common
  import opened Wire
  import opened Nar

  /** File sizes are 64-bit. */
  type Size = n: nat | n < U64

  /** A file tree as the operating system presents it: directory listings in any order, file data that
      may be longer or shorter than the size read from the metadata, and unsupported file types. */
  datatype Fs =
    | FsSymlink(target: Bytes)
    | FsFile(mode: nat, size: Size, data: seq<Byte>)
    | FsDir(listing: seq<Named<Fs>>)
    | FsSpecial

  /** mode & 0o111 != 0 */
  predicate Executable(mode: nat) {
    mode % 2 == 1 || (mode / 8) % 2 == 1 || (mode / 64) % 2 == 1
  }

  /** Whether the writer can serialise the tree. */
  predicate Serialisable(fs: Fs) {
    match fs
    case FsSymlink(target) => ValidUtf8(target)
    case FsFile(_, size, data) => size <= |data|
    case FsDir(listing) => forall e :: e in listing ==> ValidUtf8(e.name) && Serialisable(e.item)
    case FsSpecial => false
  }

  /** The tree that is written: listings sorted, files cut to their recorded size. */
  function Canon(fs: Fs): Node
    requires Serialisable(fs)
    decreases fs, 0
  {
    match fs
    case FsSymlink(target) => Symlink(target)
    case FsFile(mode, size, data) => Regular(Executable(mode), data[..size])
    case FsDir(listing) => Directory(SortNames(CanonAll(listing)))
  }

  function CanonAll(listing: seq<Named<Fs>>): (r: seq<Named<Node>>)
    requires forall e :: e in listing ==> Serialisable(e.item)
    ensures |r| == |listing|
    decreases listing, 1
  {
    if listing == [] then []
    else [Named(listing[0].name, Canon(listing[0].item))] + CanonAll(listing[1..])
  }

  lemma {:induction false} CanonAllAt(listing: seq<Named<Fs>>, i: nat)
    requires (forall e :: e in listing ==> Serialisable(e.item)) && i < |listing|
    ensures CanonAll(listing)[i] == Named(listing[i].name, Canon(listing[i].item))
  {
    hide Canon, Serialisable;
    if i > 0 { CanonAllAt(listing[1..], i - 1); }
  }

  /** No directory lists a name twice. */
  ghost predicate DistinctTree(fs: Fs) {
    fs.FsDir? ==> DistinctNames(fs.listing) && forall e :: e in fs.listing ==> DistinctTree(e.item)
  }

  /** Every directory is in strict name order. */
  ghost predicate Canonical(n: Node) {
    n.Directory? ==> SortedNames(n.entries) && forall e :: e in n.entries ==> Canonical(e.item)
  }

  lemma CanonAllDistinct(listing: seq<Named<Fs>>)
    requires (forall e :: e in listing ==> Serialisable(e.item)) && DistinctNames(listing)
    ensures DistinctNames(CanonAll(listing))
  {
    hide Canon, Serialisable;
    var all := CanonAll(listing);
    forall i, j | 0 <= i < j < |all| ensures all[i].name != all[j].name {
      CanonAllAt(listing, i);
      CanonAllAt(listing, j);
    }
  }

  lemma {:induction false} CanonIsCanonical(fs: Fs)
    requires Serialisable(fs) && DistinctTree(fs)
    ensures Canonical(Canon(fs))
  {
    if fs.FsDir? {
      var all := CanonAll(fs.listing);
      CanonAllDistinct(fs.listing);
      SortSorts(all);
      SortKeeps(all);
      forall e | e in SortNames(all) ensures Canonical(e.item) {
        assert e in multiset(SortNames(all));
        assert e in multiset(all);
        var i :| 0 <= i < |all| && all[i] == e;
        CanonAllAt(fs.listing, i);
        CanonIsCanonical(fs.listing[i].item);
      }
    }
  }

  // --- Unique decodability ---------------------------------------------------------------------------------

  /** Read one NAR and return what follows it. */
  ghost function ParseNar(b: seq<Byte>): Read<Node> {
    var ts := Tokenize(b);
    if !At(ts, MAGIC) then Fail
    else match ParseNode(ts.tail)
      case Bad => Fail
      case Ok(n, rest) => if Canonical(n) then Got(n, Frame(rest) + Leftover(b)) else Fail
  }

  lemma NarIsRead(n: Node, rest: seq<Byte>)
    requires Canonical(n)
    ensures ParseNar(NarBytes(n) + rest) == Got(n, rest)
  {
    var b := NarBytes(n) + rest;
    TokenizeFrames(Cons(MAGIC, NodeTokens(n, Nil)), rest);
    NodeTokensAppend(n, Nil, Tokenize(rest));
    ParsesNode(n, Tokenize(rest));
    FrameInvertsTokenize(rest);
  }

  lemma ReadWasNar(b: seq<Byte>)
    requires ParseNar(b).Got?
    ensures b == NarBytes(ParseNar(b).value) + ParseNar(b).rest
  {
    hide Padded, Tokenize, Leftover, NodeTokens;
    var ts := Tokenize(b);
    NodeWasWritten(ts.tail);
    var r := ParseNode(ts.tail);
    FrameInvertsTokenize(b);
    FrameNode(r.value, r.rest);
    assert Padded(MAGIC) + (Frame(NodeTokens(r.value, Nil)) + Frame(r.rest)) + Leftover(b)
           == Padded(MAGIC) + Frame(NodeTokens(r.value, Nil)) + (Frame(r.rest) + Leftover(b));
  }

  /** The parser accepts exactly the NARs of canonical trees, with any bytes after them. */
  lemma ParseNarExact(b: seq<Byte>, n: Node, rest: seq<Byte>)
    ensures ParseNar(b) == Got(n, rest) <==> Canonical(n) && b == NarBytes(n) + rest
  {
    if ParseNar(b) == Got(n, rest) { ReadWasNar(b); }
    if Canonical(n) && b == NarBytes(n) + rest { NarIsRead(n, rest); }
  }

  /** Serialisation is injective and no NAR is a proper prefix of another. */
  lemma NarPrefixFree(a: Node, b: Node, restA: seq<Byte>, restB: seq<Byte>)
    requires Canonical(a) && Canonical(b) && NarBytes(a) + restA == NarBytes(b) + restB
    ensures a == b && restA == restB
  {
    NarIsRead(a, restA);
    NarIsRead(b, restB);
  }

  lemma NarAligned(n: Node)
    ensures |NarBytes(n)| % 8 == 0
  {
    FrameAligned(Cons(MAGIC, NodeTokens(n, Nil)));
  }

  // --- Independence of listing order -------------------------------------------------------------------------

  /** The same tree up to the order of directory listings, mode bits other than executability, and data past
      the recorded size. */
  ghost predicate SameTree(a: Fs, b: Fs)
    decreases b, 1
  {
    if a.FsDir? && b.FsDir?
    then exists shuffled :: multiset(shuffled) == multiset(a.listing) && SameEntries(shuffled, b.listing)
    else SameLeaf(a, b)
  }

  predicate SameLeaf(a: Fs, b: Fs) {
    if a.FsFile? && b.FsFile? && a.size <= |a.data| && b.size <= |b.data|
    then (Executable(a.mode) <==> Executable(b.mode)) && a.data[..a.size] == b.data[..b.size]
    else a == b
  }

  /** The same names in the same order, with the same trees under them. */
  ghost predicate SameEntries(a: seq<Named<Fs>>, b: seq<Named<Fs>>)
    decreases b, 0
  {
    && |a| == |b|
    && forall i :: 0 <= i < |a| ==> a[i].name == b[i].name && SameTree(a[i].item, b[i].item)
  }

  lemma {:induction false} SortCanonAll(listing: seq<Named<Fs>>)
    requires forall e :: e in listing ==> Serialisable(e.item)
    ensures forall e :: e in SortNames(listing) ==> Serialisable(e.item)
    ensures SortNames(CanonAll(listing)) == CanonAll(SortNames(listing))
  {
    SortKeeps(listing);
    forall e | e in SortNames(listing) ensures Serialisable(e.item) {
      assert e in multiset(SortNames(listing));
    }
    if listing != [] {
      SortCanonAll(listing[1..]);
      InsertCanonAll(listing[0], SortNames(listing[1..]));
    }
  }

  lemma {:induction false} InsertCanonAll(e: Named<Fs>, s: seq<Named<Fs>>)
    requires Serialisable(e.item) && forall x :: x in s ==> Serialisable(x.item)
    requires forall x :: x in Insert(e, s) ==> Serialisable(x.item)
    ensures Insert(Named(e.name, Canon(e.item)), CanonAll(s)) == CanonAll(Insert(e, s))
  {
    hide Canon, Below;
    if s == [] || !Below(s[0].name, e.name) {
      assert ([e] + s)[1..] == s;
    } else {
      InsertCanonAll(e, s[1..]);
      assert ([s[0]] + Insert(e, s[1..]))[1..] == Insert(e, s[1..]);
      assert CanonAll(s)[1..] == CanonAll(s[1..]);
    }
  }

  lemma CanonAllEqual(a: seq<Named<Fs>>, b: seq<Named<Fs>>)
    requires |a| == |b| && (forall e :: e in a ==> Serialisable(e.item)) && (forall e :: e in b ==> Serialisable(e.item))
    requires forall i :: 0 <= i < |a| ==> a[i].name == b[i].name && Canon(a[i].item) == Canon(b[i].item)
    ensures CanonAll(a) == CanonAll(b)
  {
    hide Canon, Serialisable;
    forall i | 0 <= i < |a| ensures CanonAll(a)[i] == CanonAll(b)[i] {
      CanonAllAt(a, i);
      CanonAllAt(b, i);
    }
  }

  lemma ShuffledMembers(a: seq<Named<Fs>>, shuffled: seq<Named<Fs>>)
    requires multiset(shuffled) == multiset(a)
    ensures forall e :: e in shuffled ==> e in a
  {
    forall e | e in shuffled ensures e in a { assert e in multiset(shuffled); }
  }

  /** The NAR of a tree does not depend on the order in which its directories are read, on other mode bits, or
      on data past the recorded size. */
  lemma {:induction false} ListingOrderIrrelevant(a: Fs, b: Fs)
    requires Serialisable(a) && Serialisable(b) && SameTree(a, b) && DistinctTree(a)
    ensures Canon(a) == Canon(b)
    decreases b, 1
  {
    if a.FsDir? && b.FsDir? {
      var shuffled :| multiset(shuffled) == multiset(a.listing) && SameEntries(shuffled, b.listing);
      ShuffledMembers(a.listing, shuffled);
      SameEntriesSameCanon(shuffled, b.listing);
      DistinctPermutation(a.listing, shuffled);
      SortCanonAll(a.listing);
      SortCanonAll(shuffled);
    }
  }

  lemma {:induction false} SameEntriesSameCanon(a: seq<Named<Fs>>, b: seq<Named<Fs>>)
    requires SameEntries(a, b)
    requires forall e :: e in a ==> Serialisable(e.item) && DistinctTree(e.item)
    requires forall e :: e in b ==> Serialisable(e.item)
    ensures CanonAll(a) == CanonAll(b)
    decreases b, 0
  {
    forall i | 0 <= i < |a| ensures Canon(a[i].item) == Canon(b[i].item) {
      ListingOrderIrrelevant(a[i].item, b[i].item);
    }
    CanonAllEqual(a, b);
  }

  ghost predicate AllSerialisable(listing: seq<Named<Fs>>) { forall e :: e in listing ==> Serialisable(e.item) }

  /** The same names in the same order, written alike. */
  ghost predicate WrittenAlike(a: seq<Named<Fs>>, b: seq<Named<Fs>>) {
    && |a| == |b| && AllSerialisable(a) && AllSerialisable(b)
    && forall i :: 0 <= i < |b| ==> a[i].name == b[i].name && Canon(a[i].item) == Canon(b[i].item)
  }

  lemma MatchFirst(a: seq<Named<Fs>>, b: seq<Named<Fs>>) returns (i: nat)
    requires AllSerialisable(a) && AllSerialisable(b) && b != [] && multiset(CanonAll(a)) == multiset(CanonAll(b))
    ensures i < |a| && a[i].name == b[0].name && Canon(a[i].item) == Canon(b[0].item)
    ensures AllSerialisable(a[..i] + a[i + 1..]) && AllSerialisable(b[1..])
    ensures multiset(CanonAll(a[..i] + a[i + 1..])) == multiset(CanonAll(b[1..]))
  {
    hide Canon, Serialisable, CanonAll;
    CanonAllAt(b, 0);
    assert CanonAll(b)[0] in multiset(CanonAll(a));
    i :| 0 <= i < |a| && CanonAll(a)[i] == CanonAll(b)[0];
    CanonAllAt(a, i);
    SameRest(CanonAll(a), i, CanonAll(b));
    CanonAllWithout(a, i);
    CanonAllWithout(b, 0);
    assert b[..0] + b[1..] == b[1..] && CanonAll(b)[..0] + CanonAll(b)[1..] == CanonAll(b)[1..];
  }

  lemma PutFirst<T>(s: seq<T>, i: nat, rest: seq<T>)
    requires i < |s| && multiset(rest) == multiset(s[..i] + s[i + 1..])
    ensures multiset([s[i]] + rest) == multiset(s)
  {
    RemoveAt(s, i);
    assert s[i] in multiset(s);
  }

  lemma AlikeMore(e: Named<Fs>, rest: seq<Named<Fs>>, b: seq<Named<Fs>>)
    requires b != [] && WrittenAlike(rest, b[1..]) && Serialisable(e.item) && Serialisable(b[0].item)
    requires e.name == b[0].name && Canon(e.item) == Canon(b[0].item)
    ensures WrittenAlike([e] + rest, b)
  {
    hide Canon, Serialisable;
    var all := [e] + rest;
    forall i | 0 <= i < |b| ensures all[i].name == b[i].name && Canon(all[i].item) == Canon(b[i].item) {
      if i > 0 { assert all[i] == rest[i - 1] && b[i] == b[1..][i - 1]; }
    }
    forall x | x in b ensures Serialisable(x.item) {
      if x != b[0] { assert x in b[1..]; }
    }
  }

  /** Entries that are written alike can be matched up. */
  lemma {:induction false} MatchUp(a: seq<Named<Fs>>, b: seq<Named<Fs>>) returns (shuffled: seq<Named<Fs>>)
    requires AllSerialisable(a) && AllSerialisable(b) && multiset(CanonAll(a)) == multiset(CanonAll(b))
    ensures multiset(shuffled) == multiset(a) && WrittenAlike(shuffled, b)
    decreases |b|
  {
    hide Canon, Serialisable, CanonAll;
    if b == [] {
      assert |multiset(CanonAll(a))| == |a| && |multiset(CanonAll(b))| == |b|;
      shuffled := [];
    } else {
      var i := MatchFirst(a, b);
      var rest := MatchUp(a[..i] + a[i + 1..], b[1..]);
      shuffled := [a[i]] + rest;
      PutFirst(a, i, rest);
      AlikeMore(a[i], rest, b);
    }
  }

  lemma CanonAllWithout(a: seq<Named<Fs>>, i: nat)
    requires i < |a| && forall e :: e in a ==> Serialisable(e.item)
    ensures forall e :: e in a[..i] + a[i + 1..] ==> Serialisable(e.item)
    ensures CanonAll(a[..i] + a[i + 1..]) == CanonAll(a)[..i] + CanonAll(a)[i + 1..]
  {
    hide Canon, Serialisable, CanonAll;
    var rest := a[..i] + a[i + 1..];
    assert |CanonAll(rest)| == |CanonAll(a)| - 1;
    forall j | 0 <= j < |rest| ensures CanonAll(rest)[j] == CanonAll(a)[if j < i then j else j + 1] {
      CanonAllAt(rest, j);
      CanonAllAt(a, if j < i then j else j + 1);
    }
    IsWithout(CanonAll(a), i, CanonAll(rest));
  }

  lemma IsWithout<T>(s: seq<T>, i: nat, rest: seq<T>)
    requires i < |s| == |rest| + 1 && forall j :: 0 <= j < |rest| ==> rest[j] == s[if j < i then j else j + 1]
    ensures rest == s[..i] + s[i + 1..]
  {
  }

  /** Trees that are written alike are the same up to what the archive does not record. */
  lemma {:induction false} SameCanonSameTree(a: Fs, b: Fs)
    requires Serialisable(a) && Serialisable(b) && Canon(a) == Canon(b)
    ensures SameTree(a, b)
    decreases b
  {
    if a.FsDir? && b.FsDir? {
      SortKeeps(CanonAll(a.listing));
      SortKeeps(CanonAll(b.listing));
      var shuffled := MatchUp(a.listing, b.listing);
      forall i | 0 <= i < |b.listing| ensures SameTree(shuffled[i].item, b.listing[i].item) {
        assert shuffled[i] in shuffled;
        SameCanonSameTree(shuffled[i].item, b.listing[i].item);
      }
      assert SameEntries(shuffled, b.listing);
    }
  }

  /** Two trees have the same archive exactly when they agree up to listing order, mode bits other than
      executability and data past the recorded size. */
  lemma SameArchiveExactly(a: Fs, b: Fs)
    requires Serialisable(a) && Serialisable(b) && DistinctTree(a) && DistinctTree(b)
    ensures NarBytes(Canon(a)) == NarBytes(Canon(b)) <==> SameTree(a, b)
  {
    hide Canon, SameTree, NarBytes, Serialisable, DistinctTree;
    if SameTree(a, b) { ListingOrderIrrelevant(a, b); }
    if NarBytes(Canon(a)) == NarBytes(Canon(b)) {
      CanonIsCanonical(a);
      CanonIsCanonical(b);
      NarPrefixFree(Canon(a), Canon(b), [], []);
      SameCanonSameTree(a, b);
    }
  }

  /** What is written for a tree is read back as its canonical form, whatever follows. */
  lemma WrittenIsRead(fs: Fs, rest: seq<Byte>)
    requires Serialisable(fs) && DistinctTree(fs)
    ensures ParseNar(NarBytes(Canon(fs)) + rest) == Got(Canon(fs), rest)
  {
    CanonIsCanonical(fs);
    NarIsRead(Canon(fs), rest);
  }

  // --- What can be serialised ------------------------------------------------------------------------------------

  /** The second tree is the first one or lies somewhere under it. */
  ghost predicate Inside(fs: Fs, x: Fs) {
    fs == x || (fs.FsDir? && exists e :: e in fs.listing && Inside(e.item, x))
  }

  /** This file alone can be written: text that must be UTF-8 is, and a file is not shorter than its size. */
  predicate Writable(x: Fs) {
    match x
    case FsSymlink(target) => ValidUtf8(target)
    case FsFile(_, size, data) => size <= |data|
    case FsDir(listing) => forall e :: e in listing ==> ValidUtf8(e.name)
    case FsSpecial => false
  }

  /** A tree can be serialised exactly when every file in it can. */
  lemma {:induction false} SerialisableExactly(fs: Fs)
    ensures Serialisable(fs) <==> forall x :: Inside(fs, x) ==> Writable(x)
  {
    hide ValidUtf8;
    assert Inside(fs, fs);
    if fs.FsDir? {
      forall e | e in fs.listing ensures Serialisable(e.item) <==> forall x :: Inside(e.item, x) ==> Writable(x) {
        SerialisableExactly(e.item);
      }
      forall e, x | e in fs.listing && Inside(e.item, x) ensures Inside(fs, x) {}
      if Serialisable(fs) {
        forall x | Inside(fs, x) ensures Writable(x) {
          if x != fs {
            var e :| e in fs.listing && Inside(e.item, x);
            assert Serialisable(e.item);
          }
        }
      }
    }
  }

  // --- The grammar in words --------------------------------------------------------------------------------------

  function Words(words: seq<Bytes>, k: Tokens): Tokens {
    if words == [] then k else Cons(words[0], Words(words[1..], k))
  }

  function Ascii(s: string): Bytes
    requires |s| < 100 && forall i :: 0 <= i < |s| ==> s[i] as int < 128
  {
    AsciiBytes(s)
  }

  /** The tokens of the archive format, as the words they spell. */
  lemma TokensSpell()
    ensures MAGIC == Ascii("nix-archive-1") && OPEN == Ascii("(") && CLOSE == Ascii(")")
    ensures TYPE == Ascii("type") && SYMLINK == Ascii("symlink") && TARGET == Ascii("target")
    ensures REGULAR == Ascii("regular") && EXECUTABLE == Ascii("executable") && CONTENTS == Ascii("contents")
    ensures DIRECTORY == Ascii("directory") && ENTRY == Ascii("entry") && NAME == Ascii("name") && NODE == Ascii("node")
  {
  }

  /** A symlink is ( type symlink target <target> ). */
  lemma SymlinkInWords(target: Bytes, k: Tokens)
    ensures NodeTokens(Symlink(target), k) == Words([OPEN, TYPE, SYMLINK, TARGET, target, CLOSE], k)
  {
    WordsTwo(OPEN, TYPE, [SYMLINK, TARGET, target, CLOSE], k);
    WordsTwo(SYMLINK, TARGET, [target, CLOSE], k);
    WordsTwo(target, CLOSE, [], k);
    assert [OPEN, TYPE, SYMLINK, TARGET, target, CLOSE] == [OPEN, TYPE] + [SYMLINK, TARGET, target, CLOSE];
    assert [SYMLINK, TARGET, target, CLOSE] == [SYMLINK, TARGET] + [target, CLOSE] && [target, CLOSE] + [] == [target, CLOSE];
  }

  /** A file is ( type regular [executable <empty>] contents <contents> ). */
  lemma FileInWords(x: bool, contents: Bytes, k: Tokens)
    ensures NodeTokens(Regular(x, contents), k) ==
            Words(if x then [OPEN, TYPE, REGULAR, EXECUTABLE, EMPTY, CONTENTS, contents, CLOSE]
                  else [OPEN, TYPE, REGULAR, CONTENTS, contents, CLOSE], k)
  {
    var last := [CONTENTS, contents, CLOSE];
    WordsOne(CLOSE, k);
    WordsTwo(CONTENTS, contents, [CLOSE], k);
    assert last == [CONTENTS, contents] + [CLOSE];
    if x {
      var mid := [REGULAR, EXECUTABLE, EMPTY];
      WordsTwo(OPEN, TYPE, mid + last, k);
      WordsTwo(REGULAR, EXECUTABLE, [EMPTY] + last, k);
      assert mid + last == [REGULAR, EXECUTABLE] + ([EMPTY] + last);
      assert ([EMPTY] + last)[1..] == last;
      assert [OPEN, TYPE] + (mid + last) == [OPEN, TYPE, REGULAR, EXECUTABLE, EMPTY, CONTENTS, contents, CLOSE];
    } else {
      WordsTwo(OPEN, TYPE, [REGULAR] + last, k);
      assert ([REGULAR] + last)[1..] == last;
      assert [OPEN, TYPE] + ([REGULAR] + last) == [OPEN, TYPE, REGULAR, CONTENTS, contents, CLOSE];
    }
  }

  /** A directory is ( type directory <entries> ), and an entry is entry ( name <name> node <node> ). */
  lemma DirectoryInWords(es: seq<Named<Node>>, k: Tokens)
    ensures NodeTokens(Directory(es), k) == Words([OPEN, TYPE, DIRECTORY], EntriesTokens(es, Words([CLOSE], k)))
    ensures EntriesTokens([], k) == k
    ensures es != [] ==>
              EntriesTokens(es, k) ==
              Words([ENTRY, OPEN, NAME, es[0].name, NODE], NodeTokens(es[0].item, Words([CLOSE], EntriesTokens(es[1..], k))))
  {
    var rest := EntriesTokens(es, Words([CLOSE], k));
    WordsTwo(OPEN, TYPE, [DIRECTORY], rest);
    WordsOne(DIRECTORY, rest);
    WordsOne(CLOSE, k);
    if es != [] {
      var after := EntriesTokens(es[1..], k);
      WordsOne(CLOSE, after);
      var node := NodeTokens(es[0].item, Cons(CLOSE, after));
      WordsTwo(ENTRY, OPEN, [NAME, es[0].name, NODE], node);
      WordsTwo(NAME, es[0].name, [NODE], node);
      WordsOne(NODE, node);
    }
  }

  lemma WordsOne(a: Bytes, k: Tokens)
    ensures Words([a], k) == Cons(a, k)
  {
    assert [a][1..] == [];
  }

  lemma WordsTwo(a: Bytes, b: Bytes, more: seq<Bytes>, k: Tokens)
    ensures Words([a, b] + more, k) == Cons(a, Cons(b, Words(more, k)))
  {
    assert ([a, b] + more)[1..] == [b] + more && ([b] + more)[1..] == more;
  }

  // --- Directories, in the system's own terms ------------------------------------------------------------------

  /** A directory is written as its listed entries, each with what is under it, in ascending byte order of the
      names: of any two, the earlier name is a proper prefix or has the smaller byte where they first differ. */
  lemma DirectoryInByteOrder(listing: seq<Named<Fs>>)
    requires Serialisable(FsDir(listing)) && DistinctTree(FsDir(listing))
    ensures
      Canon(FsDir(listing)).Directory? &&
      var entries := Canon(FsDir(listing)).entries;
      && |entries| == |listing|
      && (forall i :: 0 <= i < |listing| ==> Named(listing[i].name, Canon(listing[i].item)) in entries)
      && (forall i, j :: 0 <= i < j < |entries| ==> InByteOrder(entries[i].name, entries[j].name))
  {
    hide CanonAll, SortNames, Below, Serialisable, DistinctTree, Canon, InByteOrder;
    DirectoryEntries(listing);
    var entries := Canon(FsDir(listing)).entries;
    forall i, j | 0 <= i < j < |entries| ensures InByteOrder(entries[i].name, entries[j].name) {
      BelowExactly(entries[i].name, entries[j].name);
    }
  }

  /** The entries are the listed ones, sorted. */
  lemma DirectoryEntries(listing: seq<Named<Fs>>)
    requires Serialisable(FsDir(listing)) && DistinctTree(FsDir(listing))
    ensures
      Canon(FsDir(listing)).Directory? &&
      var entries := Canon(FsDir(listing)).entries;
      && |entries| == |listing| && SortedNames(entries)
      && (forall i :: 0 <= i < |listing| ==> Named(listing[i].name, Canon(listing[i].item)) in entries)
  {
    hide Canon, CanonAll, Below;
    var all := CanonAll(listing);
    var entries := SortNames(all);
    DirectoryCanon(listing);
    CanonAllDistinct(listing);
    SortSorts(all);
    SortKeeps(all);
    SameLength(entries, all);
    forall i | 0 <= i < |listing| ensures Named(listing[i].name, Canon(listing[i].item)) in entries {
      CanonAllAt(listing, i);
      assert all[i] in multiset(entries);
    }
  }

  lemma DirectoryCanon(listing: seq<Named<Fs>>)
    requires Serialisable(FsDir(listing))
    ensures Canon(FsDir(listing)) == Directory(SortNames(CanonAll(listing)))
  {
  }

  /** A file is executable when any of its three permission digits is odd. */
  lemma ExecutableDigits(high: nat, user: nat, group: nat, other: nat)
    requires user < 8 && group < 8 && other < 8
    ensures Executable(512 * high + 64 * user + 8 * group + other) <==> user % 2 == 1 || group % 2 == 1 || other % 2 == 1
  {
    var mode := 512 * high + 64 * user + 8 * group + other;
    DigitOut(64 * high + 8 * user + group, other, mode);
    DigitOut(8 * high + user, group, 64 * high + 8 * user + group);
    Bits.DivideTwice(mode, 8, 8);
    LowParity(8 * high, user);
    LowParity(64 * high + 8 * user, group);
    LowParity(512 * high + 64 * user + 8 * group, other);
  }

  lemma DigitOut(upper: nat, d: nat, n: nat)
    requires n == 8 * upper + d && d < 8
    ensures n / 8 == upper
  {
  }

  lemma LowParity(upper: nat, d: nat)
    requires upper % 8 == 0
    ensures (upper + d) % 2 == d % 2
  {
  }
}
