/** The streaming NAR writer (iroh-nix/src/nar.rs): a writer that hashes whatever its inner writer
    accepts, and recursive methods that write a file tree through it in pieces.  Short reads, short
    writes and I/O errors are chosen by `:|` and `*`, so the contracts hold for every schedule of them.
 */
module NarWriters {
  import opened Common
  import opened Wire
  import opened Nar
  import opened NarTree

  datatype NarInfo = NarInfo(blake3: seq<Byte>, sha256: seq<Byte>, narSize: nat)

  /** nar.rs:30-80.  The hashers are represented by the bytes they have absorbed. */
  class HashingWriter {
    const before: seq<Byte>           // what the inner writer held when it was wrapped
    var inner: seq<Byte>              // what it holds now
    var sha256: seq<Byte>
    var blake3: seq<Byte>
    var bytesWritten: nat
    ghost var trouble: bool           // some read or write has failed

    /** Both hashers and the counter have seen exactly what the inner writer accepted. */
    ghost predicate Valid()
      reads this
    {
      sha256 == blake3 && inner == before + sha256 && bytesWritten == |sha256|
    }

    constructor (before: seq<Byte>)
      ensures Valid() && this.before == before && inner == before && sha256 == [] && !trouble
    {
      this.before := before;
      inner := before;
      sha256 := [];
      blake3 := [];
      bytesWritten := 0;
      trouble := false;
    }

    /** Any inner writer: it fails, or accepts some prefix of the buffer. */
    method InnerWrite(buf: seq<Byte>) returns (r: Option<nat>)
      modifies this`inner, this`trouble
      ensures r.None? ==> inner == old(inner) && trouble
      ensures r.Some? ==> r.value <= |buf| && inner == old(inner) + buf[..r.value] && trouble == old(trouble)
    {
      var fails: bool := *;
      if fails {
        trouble := true;
        r := None;
      } else {
        var n :| 0 <= n <= |buf|;
        inner := inner + buf[..n];
        r := Some(n);
      }
    }

    /** nar.rs:69-75 */
    method Write(buf: seq<Byte>) returns (r: Option<nat>)
      requires Valid()
      modifies this
      ensures Valid()
      ensures r.None? ==> sha256 == old(sha256) && trouble
      ensures r.Some? ==> r.value <= |buf| && sha256 == old(sha256) + buf[..r.value] && trouble == old(trouble)
    {
      r := InnerWrite(buf);
      if r.Some? {
        var n := r.value;
        assert before + (sha256 + buf[..n]) == before + sha256 + buf[..n];
        sha256 := sha256 + buf[..n];
        blake3 := blake3 + buf[..n];
        bytesWritten := bytesWritten + n;
      }
    }

    /** The standard library's `write_all`: keep writing until everything is accepted; accepting
        nothing is an error. */
    method WriteAll(buf: seq<Byte>) returns (ok: bool)
      requires Valid()
      modifies this
      ensures Valid() && old(sha256) <= sha256 <= old(sha256) + buf
      ensures ok ==> sha256 == old(sha256) + buf && trouble == old(trouble)
      ensures !ok ==> trouble
    {
      var done := 0;
      ghost var start := sha256;
      assert start + buf[..0] == start;
      while done < |buf|
        invariant 0 <= done <= |buf| && Valid()
        invariant sha256 == start + buf[..done] && trouble == old(trouble)
        decreases |buf| - done
      {
        var r := Write(buf[done..]);
        if r.None? { return false; }
        if r.value == 0 {
          trouble := true;
          return false;
        }
        assert buf[..done + r.value] == buf[..done] + buf[done..][..r.value];
        done := done + r.value;
      }
      assert buf[..done] == buf;
      ok := true;
    }

    /** nar.rs:49-60, for any two hash functions. */
    method Finish(sha: seq<Byte> -> seq<Byte>, blake: seq<Byte> -> seq<Byte>) returns (info: NarInfo)
      requires Valid()
      ensures info == NarInfo(blake(sha256), sha(sha256), |sha256|) && inner == before + sha256
    {
      info := NarInfo(blake(blake3), sha(sha256), bytesWritten);
    }
  }

  lemma ConcatAssoc<T>(a: seq<T>, b: seq<T>, c: seq<T>)
    ensures (a + b) + c == a + (b + c)
  {
  }

  // --- Strings ---------------------------------------------------------------------------------------------

  /** nar.rs:237-252 */
  method WriteString(w: HashingWriter, s: Bytes) returns (ok: bool)
    requires w.Valid()
    modifies w
    ensures w.Valid()
    ensures ok ==> w.sha256 == old(w.sha256) + Padded(s) && w.trouble == old(w.trouble)
    ensures !ok ==> w.trouble
  {
    hide Padding;
    ok := w.WriteAll(U64Bytes(|s|));
    if !ok { return; }
    ok := w.WriteAll(s);
    if !ok { return; }
    var padding := Padding(|s|);
    if padding > 0 {
      ok := w.WriteAll(Zeros(padding));
    }
    assert old(w.sha256) + U64Bytes(|s|) + s + Zeros(padding) == old(w.sha256) + Padded(s);
  }

  /** Write several strings in a row. */
  method WriteStrings(w: HashingWriter, words: seq<Bytes>) returns (ok: bool)
    requires w.Valid()
    modifies w
    ensures w.Valid()
    ensures ok ==> w.sha256 == old(w.sha256) + Frame(Words(words, Nil)) && w.trouble == old(w.trouble)
    ensures !ok ==> w.trouble
  {
    hide Padded;
    ok := true;
    ghost var start := w.sha256;
    assert start == start + [];
    for i := 0 to |words|
      invariant w.Valid() && ok && w.trouble == old(w.trouble)
      invariant w.sha256 + Frame(Words(words[i..], Nil)) == start + Frame(Words(words, Nil))
    {
      ghost var out := w.sha256;
      ok := WriteString(w, words[i]);
      if !ok { return; }
      assert words[i..][1..] == words[i + 1..];
      assert out + (Padded(words[i]) + Frame(Words(words[i + 1..], Nil))) == out + Padded(words[i]) + Frame(Words(words[i + 1..], Nil));
    }
    assert words[|words|..] == [];
    assert w.sha256 + [] == w.sha256;
  }

  // --- File contents -----------------------------------------------------------------------------------------

  /** One `read` of at most `limit` bytes at `pos`: an error, the end of the file, or some bytes. */
  method ReadSome(w: HashingWriter, data: seq<Byte>, pos: nat, limit: nat) returns (r: Option<seq<Byte>>)
    requires pos <= |data| && limit > 0 && w.Valid()
    modifies w`trouble
    ensures r.None? ==> w.trouble
    ensures r.Some? ==> w.trouble == old(w.trouble)
    ensures r.Some? ==> |r.value| <= limit && pos + |r.value| <= |data| && r.value == data[pos..pos + |r.value|]
    ensures r.Some? && r.value == [] ==> pos == |data|
  {
    var fails: bool := *;
    if fails {
      w.trouble := true;
      r := None;
    } else if pos == |data| {
      r := Some([]);
    } else {
      var most := if limit < |data| - pos then limit else |data| - pos;
      var n :| 0 < n <= most;
      r := Some(data[pos..pos + n]);
    }
  }

  /** nar.rs:199-232: size, the first `size` bytes in chunks, padding. */
  method WriteContents(w: HashingWriter, size: Size, data: seq<Byte>) returns (ok: bool)
    requires w.Valid()
    modifies w
    ensures w.Valid()
    ensures ok ==> size <= |data| && w.sha256 == old(w.sha256) + Padded(data[..size]) && w.trouble == old(w.trouble)
    ensures !ok ==> w.trouble || |data| < size
  {
    hide Padding;
    ghost var start := w.sha256;
    ok := w.WriteAll(U64Bytes(size));
    if !ok { return; }
    var pos, remaining := 0, size;
    assert start + U64Bytes(size) + data[..0] == start + U64Bytes(size);
    while remaining > 0
      invariant remaining == size - pos && 0 <= pos <= |data| && pos <= size
      invariant w.Valid() && w.trouble == old(w.trouble)
      invariant w.sha256 == start + U64Bytes(size) + data[..pos]
      decreases remaining
    {
      var toRead := if remaining < 65536 then remaining else 65536;
      var chunk := ReadSome(w, data, pos, toRead);
      if chunk.None? || chunk.value == [] { return false; }
      var written := w.WriteAll(chunk.value);
      if !written { return false; }
      assert data[..pos] + chunk.value == data[..pos + |chunk.value|];
      pos := pos + |chunk.value|;
      remaining := remaining - |chunk.value|;
    }
    var padding := Padding(size);
    ok := true;
    if padding > 0 {
      ok := w.WriteAll(Zeros(padding));
    }
    assert start + U64Bytes(size) + data[..size] + Zeros(padding) == start + Padded(data[..size]);
  }

  // --- Trees -------------------------------------------------------------------------------------------------

  /** What is written between the parentheses of a node. */
  ghost function TypedBody(n: Node): seq<Byte> { Frame(Cons(TYPE, BodyTokens(n, Nil))) }

  lemma NodeIsBracketedBody(n: Node)
    ensures Frame(NodeTokens(n, Nil)) == Padded(OPEN) + TypedBody(n) + Padded(CLOSE)
  {
    hide Padded;
    var close := Cons(CLOSE, Nil);
    BodyTokensAppend(n, Nil, close);
    FrameAppend(Cons(TYPE, BodyTokens(n, Nil)), close);
    assert Append(Cons(TYPE, BodyTokens(n, Nil)), close) == Cons(TYPE, BodyTokens(n, close));
    assert Frame(close) == Padded(CLOSE) + [];
    assert Padded(CLOSE) + [] == Padded(CLOSE);
  }

  lemma {:induction false} FrameWords(words: seq<Bytes>, k: Tokens)
    ensures Frame(Words(words, k)) == Frame(Words(words, Nil)) + Frame(k)
  {
    hide Padded;
    if words != [] {
      FrameWords(words[1..], k);
      assert Padded(words[0]) + (Frame(Words(words[1..], Nil)) + Frame(k)) == Padded(words[0]) + Frame(Words(words[1..], Nil)) + Frame(k);
    }
  }

  /** nar.rs:134-149 */
  method WriteSymlink(w: HashingWriter, target: Bytes) returns (ok: bool)
    requires w.Valid()
    modifies w
    ensures w.Valid()
    ensures ok ==> ValidUtf8(target) && w.sha256 == old(w.sha256) + TypedBody(Symlink(target)) && w.trouble == old(w.trouble)
    ensures !ok ==> w.trouble || !ValidUtf8(target)
  {
    hide Padded;
    var words := [TYPE, SYMLINK, TARGET];
    ok := WriteStrings(w, words);
    if !ok { return; }
    if !ValidUtf8(target) { return false; }
    ok := WriteString(w, target);
    FrameWords(words, Cons(target, Nil));
    WordsThree(words, Cons(target, Nil));
    OneToken(target);
    assert old(w.sha256) + Frame(Words(words, Nil)) + Padded(target) == old(w.sha256) + (Frame(Words(words, Nil)) + Padded(target));
  }

  lemma WordsThree(words: seq<Bytes>, k: Tokens)
    requires |words| == 3
    ensures Words(words, k) == Cons(words[0], Cons(words[1], Cons(words[2], k)))
  {
    assert Words(words[1..][1..][1..], k) == k;
    assert Words(words[1..][1..], k) == Cons(words[2], k);
    assert Words(words[1..], k) == Cons(words[1], Words(words[1..][1..], k));
  }

  lemma OneToken(s: Bytes)
    ensures Frame(Cons(s, Nil)) == Padded(s)
  {
    assert Frame(Cons(s, Nil)) == Padded(s) + [];
  }

  /** nar.rs:187-235 */
  method WriteFile(w: HashingWriter, mode: nat, size: Size, data: seq<Byte>) returns (ok: bool)
    requires w.Valid()
    modifies w
    ensures w.Valid()
    ensures ok ==> size <= |data| && w.trouble == old(w.trouble) &&
                   w.sha256 == old(w.sha256) + TypedBody(Regular(Executable(mode), data[..size]))
    ensures !ok ==> w.trouble || |data| < size
  {
    hide Padded, Executable;
    var words := [TYPE, REGULAR];
    if Executable(mode) { words := words + [EXECUTABLE, EMPTY]; }
    words := words + [CONTENTS];
    ok := WriteStrings(w, words);
    if !ok { return; }
    ok := WriteContents(w, size, data);
    if ok {
      var contents := data[..size];
      OneToken(contents);
      FrameWords(words, Cons(contents, Nil));
      FileWords(words, Executable(mode), contents);
      assert old(w.sha256) + Frame(Words(words, Nil)) + Padded(contents) == old(w.sha256) + (Frame(Words(words, Nil)) + Padded(contents));
    }
  }

  lemma FileWords(words: seq<Bytes>, x: bool, contents: Bytes)
    requires words == [TYPE, REGULAR] + (if x then [EXECUTABLE, EMPTY] else []) + [CONTENTS]
    ensures Words(words, Cons(contents, Nil)) == Cons(TYPE, BodyTokens(Regular(x, contents), Nil))
  {
    var k := Cons(contents, Nil);
    if x {
      assert words[1..][1..] == [EXECUTABLE, EMPTY, CONTENTS];
      WordsThree([EXECUTABLE, EMPTY, CONTENTS], k);
      assert Words(words[1..], k) == Cons(REGULAR, Words(words[1..][1..], k));
    } else {
      WordsThree(words, k);
    }
  }

  // --- Directories -------------------------------------------------------------------------------------------

  function EntryHead(name: Bytes): seq<Bytes> { [ENTRY, OPEN, NAME, name, NODE] }

  /** What is written for one directory entry. */
  ghost function EntryBytes(e: Named<Fs>): seq<Byte> {
    if !Serialisable(e.item) then []
    else Frame(Words(EntryHead(e.name), Nil)) + Frame(NodeTokens(Canon(e.item), Nil)) + Padded(CLOSE)
  }

  ghost function EntriesBytes(es: seq<Named<Fs>>): seq<Byte> {
    if es == [] then [] else EntryBytes(es[0]) + EntriesBytes(es[1..])
  }

  lemma {:induction false} EntriesBytesAppend(es: seq<Named<Fs>>, e: Named<Fs>)
    ensures EntriesBytes(es + [e]) == EntriesBytes(es) + EntryBytes(e)
  {
    hide EntryBytes;
    if es == [] {
      assert [e][1..] == [];
      assert EntryBytes(e) + [] == EntryBytes(e) && [] + EntryBytes(e) == EntryBytes(e);
      assert es + [e] == [e];
    } else {
      EntriesBytesAppend(es[1..], e);
      assert (es + [e])[1..] == es[1..] + [e];
      assert EntryBytes(es[0]) + (EntriesBytes(es[1..]) + EntryBytes(e)) == EntryBytes(es[0]) + EntriesBytes(es[1..]) + EntryBytes(e);
    }
  }

  lemma WordsFive(name: Bytes, k: Tokens)
    ensures Words(EntryHead(name), k) == Cons(ENTRY, Cons(OPEN, Cons(NAME, Cons(name, Cons(NODE, k)))))
  {
    var words := EntryHead(name);
    assert words[1..][1..] == [NAME, name, NODE];
    WordsThree([NAME, name, NODE], k);
    assert Words(words[1..], k) == Cons(OPEN, Words(words[1..][1..], k));
  }

  lemma EntryTokensAreBytes(e: Named<Fs>, k: Tokens)
    requires Serialisable(e.item)
    ensures Frame(Cons(ENTRY, Cons(OPEN, Cons(NAME, Cons(e.name, Cons(NODE, NodeTokens(Canon(e.item), Cons(CLOSE, k))))))))
            == EntryBytes(e) + Frame(k)
  {
    hide Canon, Serialisable, NodeTokens, Padded, EntryHead, Words;
    var n := Canon(e.item);
    var inner := NodeTokens(n, Cons(CLOSE, k));
    WordsFive(e.name, inner);
    FrameWords(EntryHead(e.name), inner);
    FrameNode(n, Cons(CLOSE, k));
    var a, b := Frame(Words(EntryHead(e.name), Nil)), Frame(NodeTokens(n, Nil));
    assert Frame(Cons(CLOSE, k)) == Padded(CLOSE) + Frame(k);
    assert a + (b + (Padded(CLOSE) + Frame(k))) == a + b + Padded(CLOSE) + Frame(k);
  }

  lemma {:induction false} EntriesTokensAreBytes(es: seq<Named<Fs>>)
    requires forall e :: e in es ==> Serialisable(e.item)
    ensures Frame(EntriesTokens(CanonAll(es), Nil)) == EntriesBytes(es)
  {
    hide Canon, Serialisable, NodeTokens, EntryBytes, Frame;
    if es == [] {
      assert Frame(Nil) == [] by { EmptyFrame(); }
    } else {
      EntriesTokensAreBytes(es[1..]);
      EntryTokensAreBytes(es[0], EntriesTokens(CanonAll(es[1..]), Nil));
      assert CanonAll(es)[1..] == CanonAll(es[1..]);
    }
  }

  lemma EmptyFrame()
    ensures Frame(Nil) == []
  {
  }

  lemma DirectoryIsEntries(listing: seq<Named<Fs>>)
    requires Serialisable(FsDir(listing))
    ensures TypedBody(Canon(FsDir(listing))) == Frame(Words([TYPE, DIRECTORY], Nil)) + EntriesBytes(SortNames(listing))
  {
    hide EntryBytes, Frame;
    var entries := SortNames(listing);
    SortCanonAll(listing);
    EntriesTokensAreBytes(entries);
    var k := EntriesTokens(CanonAll(entries), Nil);
    FrameWords([TYPE, DIRECTORY], k);
    assert Words([DIRECTORY], k) == Cons(DIRECTORY, k);
    assert [TYPE, DIRECTORY][1..] == [DIRECTORY];
  }

  lemma SortedMembers(listing: seq<Named<Fs>>)
    ensures forall e :: e in SortNames(listing) <==> e in listing
  {
    SortKeeps(listing);
    forall e ensures e in SortNames(listing) <==> e in listing {
      assert e in SortNames(listing) <==> e in multiset(SortNames(listing));
    }
  }

  lemma ListingSerialisable(listing: seq<Named<Fs>>)
    ensures Serialisable(FsDir(listing)) <==> forall e :: e in SortNames(listing) ==> ValidUtf8(e.name) && Serialisable(e.item)
  {
    SortedMembers(listing);
  }

  lemma EntryIsSmaller(parent: Fs, e: Named<Fs>)
    requires parent.FsDir? && e in parent.listing
    ensures e.item < parent
  {
    var j :| 0 <= j < |parent.listing| && parent.listing[j] == e;
  }

  /** nar.rs:106-132 */
  method WriteEntry(w: HashingWriter, fs: Fs) returns (ok: bool)
    requires w.Valid()
    modifies w
    ensures w.Valid()
    ensures ok ==> Serialisable(fs) && w.sha256 == old(w.sha256) + Frame(NodeTokens(Canon(fs), Nil)) && w.trouble == old(w.trouble)
    ensures !ok ==> w.trouble || !Serialisable(fs)
    decreases fs, 2
  {
    hide Padded, TypedBody, NodeTokens, Frame, ValidUtf8, Executable, SortNames, CanonAll;
    ok := WriteString(w, OPEN);
    if !ok { return; }
    match fs {
      case FsSymlink(target) => ok := WriteSymlink(w, target);
      case FsDir(listing) => ok := WriteDirectory(w, fs, listing);
      case FsFile(mode, size, data) => ok := WriteFile(w, mode, size, data);
      case FsSpecial => ok := false;
    }
    if !ok { return; }
    ghost var body := TypedBody(Canon(fs));
    assert w.sha256 == old(w.sha256) + Padded(OPEN) + body;
    ok := WriteString(w, CLOSE);
    NodeIsBracketedBody(Canon(fs));
    ConcatAssoc(old(w.sha256), Padded(OPEN), body);
    ConcatAssoc(old(w.sha256), Padded(OPEN) + body, Padded(CLOSE));
  }

  /** nar.rs:151-185 */
  method WriteDirectory(w: HashingWriter, ghost parent: Fs, listing: seq<Named<Fs>>) returns (ok: bool)
    requires w.Valid() && parent == FsDir(listing)
    modifies w
    ensures w.Valid()
    ensures ok ==> Serialisable(parent) && w.sha256 == old(w.sha256) + TypedBody(Canon(parent)) && w.trouble == old(w.trouble)
    ensures !ok ==> w.trouble || !Serialisable(parent)
    decreases parent, 1
  {
    hide Padded, Frame, NodeTokens, Canon, Serialisable, ValidUtf8, EntryBytes, EntriesBytes, Words, SortNames, TypedBody;
    ghost var start := w.sha256;
    ok := WriteStrings(w, [TYPE, DIRECTORY]);
    if !ok { return; }
    var entries := SortNames(listing);
    SortedMembers(listing);
    ListingSerialisable(listing);
    NoEntries();
    ghost var out := w.sha256;
    for i := 0 to |entries|
      invariant w.Valid() && ok && w.trouble == old(w.trouble)
      invariant forall k :: 0 <= k < i ==> ValidUtf8(entries[k].name) && Serialisable(entries[k].item)
      invariant w.sha256 == out + EntriesBytes(entries[..i])
    {
      assert entries[i] in entries;
      ok := WriteNamedEntry(w, parent, entries[i]);
      if !ok { return; }
      EntriesBytesAppend(entries[..i], entries[i]);
      assert entries[..i] + [entries[i]] == entries[..i + 1];
      ConcatAssoc(out, EntriesBytes(entries[..i]), EntryBytes(entries[i]));
    }
    assert entries[..|entries|] == entries;
    DirectoryIsEntries(listing);
    ConcatAssoc(start, Frame(Words([TYPE, DIRECTORY], Nil)), EntriesBytes(entries));
  }

  /** nar.rs:169-182: the body of the loop over a directory. */
  method WriteNamedEntry(w: HashingWriter, ghost parent: Fs, e: Named<Fs>) returns (ok: bool)
    requires w.Valid() && parent.FsDir? && e in parent.listing
    modifies w
    ensures w.Valid()
    ensures ok ==> ValidUtf8(e.name) && Serialisable(e.item) && w.sha256 == old(w.sha256) + EntryBytes(e) && w.trouble == old(w.trouble)
    ensures !ok ==> w.trouble || !(ValidUtf8(e.name) && Serialisable(e.item))
    decreases parent, 0
  {
    hide Padded, Frame, NodeTokens, Canon, Serialisable, ValidUtf8, EntryBytes, Words, EntryHead;
    EntryIsSmaller(parent, e);
    if !ValidUtf8(e.name) { return false; }
    ok := WriteStrings(w, EntryHead(e.name));
    if !ok { return; }
    ok := WriteEntry(w, e.item);
    if !ok { return; }
    ok := WriteString(w, CLOSE);
    if ok { EntryWritten(old(w.sha256), e); }
  }

  lemma NoEntries()
    ensures EntriesBytes([]) == []
  {
  }

  lemma EntryWritten(before: seq<Byte>, e: Named<Fs>)
    requires Serialisable(e.item)
    ensures before + Frame(Words(EntryHead(e.name), Nil)) + Frame(NodeTokens(Canon(e.item), Nil)) + Padded(CLOSE)
            == before + EntryBytes(e)
  {
    hide Canon, Serialisable, NodeTokens, Padded, EntryHead, Words, Frame;
  }

  // --- Whole archives ------------------------------------------------------------------------------------------

  /** nar.rs:94-99 */
  method WritePath(w: HashingWriter, fs: Fs) returns (ok: bool)
    requires w.Valid()
    modifies w
    ensures w.Valid()
    ensures ok ==> Serialisable(fs) && w.sha256 == old(w.sha256) + NarBytes(Canon(fs)) && w.trouble == old(w.trouble)
    ensures !ok ==> w.trouble || !Serialisable(fs)
  {
    hide Padded, NodeTokens, Canon, Serialisable;
    ok := WriteString(w, MAGIC);
    if !ok { return; }
    ok := WriteEntry(w, fs);
    if ok {
      assert old(w.sha256) + Padded(MAGIC) + Frame(NodeTokens(Canon(fs), Nil))
             == old(w.sha256) + (Padded(MAGIC) + Frame(NodeTokens(Canon(fs), Nil)));
    }
  }

  /** nar.rs:262-278: into a fresh buffer, or into any other writer.  If nothing goes wrong with I/O, it
      succeeds exactly on serialisable trees, and the digest and size depend on the tree alone, not on
      the writer or on how the bytes were split up. */
  method SerializePath(fs: Fs, before: seq<Byte>, sha: seq<Byte> -> seq<Byte>, blake: seq<Byte> -> seq<Byte>)
      returns (r: Option<(seq<Byte>, NarInfo)>, ghost trouble: bool)
    ensures r.Some? ==> Serialisable(fs) && !trouble
    ensures r.None? ==> trouble || !Serialisable(fs)
    ensures r.Some? ==>
              var nar := NarBytes(Canon(fs));
              r.value == (before + nar, NarInfo(blake(nar), sha(nar), |nar|))
  {
    var w := new HashingWriter(before);
    var ok := WritePath(w, fs);
    trouble := w.trouble;
    if ok {
      var info := w.Finish(sha, blake);
      r := Some((w.inner, info));
      assert [] + NarBytes(Canon(fs)) == NarBytes(Canon(fs));
    } else {
      r := None;
    }
  }
}
