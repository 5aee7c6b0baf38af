/** The hash index (iroh-nix/src/hash_index.rs): one table with three unique keys, INSERT OR REPLACE, and
    the column encodings of store hash, references and deriver.
 */
module HashIndexes {
  import opened Common
  import opened Wire
  import opened Text
  import opened Base32
  import opened NarInfos

  datatype Row = Row(
    blake3: Hash,
    sha256: Hash,
    storePath: string,
    narSize: int,
    storeHash: Option<string>,
    references: string,
    deriver: Option<string>)

  // --- Columns -----------------------------------------------------------------------------------------------

  /** The part before the first '-'. */
  function BeforeDash(s: string): string {
    match SplitOnce(s, '-') { case Some(p) => p.0 case None => s }
  }

  /** hash_index.rs:410-415 */
  function ExtractStoreHash(path: string): Option<string> {
    match StripPrefix(path, STORE) { case Some(s) => Some(BeforeDash(s)) case None => None }
  }

  /** The store hash is what stands between the store directory and the first dash, or the end. */
  lemma StoreHashExactly(path: string, h: string)
    ensures ExtractStoreHash(path) == Some(h) <==>
            '-' !in h && (path == STORE + h || exists name :: path == STORE + h + "-" + name)
  {
    hide SplitOnce;
    if ExtractStoreHash(path) == Some(h) { HashWasThere(path, h); }
    if '-' !in h && path == STORE + h { NoDash(h); }
    if '-' !in h && exists name :: path == STORE + h + "-" + name {
      var name :| path == STORE + h + "-" + name;
      BeforeName(h, name);
    }
  }

  lemma HashWasThere(path: string, h: string)
    requires ExtractStoreHash(path) == Some(h)
    ensures '-' !in h && (path == STORE + h || exists name :: path == STORE + h + "-" + name)
  {
    hide SplitOnce;
    var base := path[|STORE|..];
    assert path == STORE + base;
    SplitOncePieces(base, '-');
    SplitOnceFirst(base, '-');
    if SplitOnce(base, '-').Some? {
      var name := SplitOnce(base, '-').value.1;
      assert STORE + (h + "-" + name) == STORE + h + "-" + name;
    }
  }

  lemma BeforeName(h: string, name: string)
    requires '-' !in h
    ensures ExtractStoreHash(STORE + h + "-" + name) == Some(h)
  {
    hide SplitOnce;
    var base := h + "-" + name;
    assert STORE + h + "-" + name == STORE + base && (STORE + base)[|STORE|..] == base;
    SplitsOnce(h, '-', name);
  }

  lemma NoDash(h: string)
    requires '-' !in h
    ensures ExtractStoreHash(STORE + h) == Some(h)
  {
    SplitOncePieces(h, '-');
    hide SplitOnce;
    assert (STORE + h)[|STORE|..] == h;
  }

  /** A path outside the store has no store hash. */
  lemma NoStoreHash(path: string)
    ensures ExtractStoreHash(path).None? <==> !(STORE <= path)
  {
  }

  /** `u64 as i64` and back. */
  function ToI64(n: nat): int
    requires n < U64
  {
    if n < U64 / 2 then n else n - U64
  }

  function FromI64(i: int): nat
    requires -U64 / 2 <= i < U64 / 2
  {
    if i < 0 then i + U64 else i
  }

  lemma SizeRestored(n: nat)
    requires n < U64
    ensures -U64 / 2 <= ToI64(n) < U64 / 2 && FromI64(ToI64(n)) == n
  {
  }

  predicate Sized(e: HashEntry) { e.narSize < U64 }

  /** hash_index.rs:229-250: the row stored for an entry. */
  function ToRow(e: HashEntry): Row
    requires Sized(e)
  {
    Row(e.blake3, e.sha256, e.storePath, ToI64(e.narSize), ExtractStoreHash(e.storePath),
        JoinWords(Basenames(e.references)),
        match e.deriver { case Some(d) => Basename(d) case None => None })
  }

  /** hash_index.rs:362-375: the entry read from a row. */
  function FromRow(r: Row): HashEntry {
    HashEntry(r.blake3, r.sha256, r.storePath,
              if -U64 / 2 <= r.narSize < U64 / 2 then FromI64(r.narSize) else 0,
              StorePaths(SplitWords(r.references)),
              match r.deriver { case Some(b) => Some(STORE + b) case None => None })
  }

  /** What the columns can hold. */
  predicate Storable(e: HashEntry) {
    && (forall r :: r in e.references ==> GoodReference(r))
    && (e.deriver.Some? ==> STORE <= e.deriver.value)
  }

  /** An entry survives the column encoding exactly when its references are single words under the store
      and its deriver, if any, is under the store; keys and size always survive. */
  lemma RowRestoresExactly(e: HashEntry)
    requires Sized(e)
    ensures FromRow(ToRow(e)) == e <==> Storable(e)
    ensures FromRow(ToRow(e)).(references := e.references, deriver := e.deriver) == e
  {
    hide GoodReference, JoinWords, Basenames, SplitWords, StorePaths;
    SizeRestored(e.narSize);
    ReferencesRestoredExactly(e.references);
    if e.deriver.Some? && STORE <= e.deriver.value {
      assert STORE + e.deriver.value[|STORE|..] == e.deriver.value;
    }
  }

  // --- The table ---------------------------------------------------------------------------------------------

  predicate Clash(r: Row, s: Row) {
    r.blake3 == s.blake3 || r.sha256 == s.sha256 || r.storePath == s.storePath
  }

  /** No two rows share a BLAKE3 hash, a SHA256 hash or a store path. */
  ghost predicate UniqueKeys(rows: set<Row>) {
    forall r, s :: r in rows && s in rows && Clash(r, s) ==> r == s
  }

  /** The store hash column is the prefix extracted from the store path. */
  ghost predicate HashColumn(rows: set<Row>) {
    forall r :: r in rows ==> r.storeHash == ExtractStoreHash(r.storePath)
  }

  ghost predicate TableOk(rows: set<Row>) { UniqueKeys(rows) && HashColumn(rows) }

  /** INSERT OR REPLACE: every row that clashes on some unique key goes. */
  function Replace(rows: set<Row>, new_row: Row): set<Row> {
    (set r | r in rows && !Clash(r, new_row)) + {new_row}
  }

  lemma ReplaceKeepsTable(rows: set<Row>, e: HashEntry)
    requires Sized(e) && TableOk(rows)
    ensures TableOk(Replace(rows, ToRow(e)))
  {
    hide ExtractStoreHash, JoinWords, Basenames, Basename;
  }

  datatype KeyQuery = ByBlake3(h: Hash) | BySha256(h: Hash) | ByStorePath(path: string)

  predicate Matches(q: KeyQuery, r: Row) {
    match q
    case ByBlake3(h) => r.blake3 == h
    case BySha256(h) => r.sha256 == h
    case ByStorePath(path) => r.storePath == path
  }

  /** The rows a unique key selects. */
  ghost function Selected(rows: set<Row>, q: KeyQuery): set<Row> { set r | r in rows && Matches(q, r) }

  lemma KeySelectsAtMostOne(rows: set<Row>, q: KeyQuery)
    requires UniqueKeys(rows)
    ensures |Selected(rows, q)| <= 1
  {
    forall x, y | x in Selected(rows, q) && y in Selected(rows, q) ensures x == y { assert Clash(x, y); }
    AtMostOne(Selected(rows, q));
  }

  lemma UnionSize<T>(a: set<T>, b: set<T>)
    ensures |a + b| <= |a| + |b|
  {
    assert a + b == a + (b - a);
    SubsetCard(b - a, b);
  }

  /** An insert removes at most three rows: one per key. */
  lemma ReplaceRemovesAtMostThree(rows: set<Row>, n: Row)
    requires UniqueKeys(rows)
    ensures |rows - Replace(rows, n)| <= 3
  {
    var a := Selected(rows, ByBlake3(n.blake3));
    var b := Selected(rows, BySha256(n.sha256));
    var c := Selected(rows, ByStorePath(n.storePath));
    assert rows - Replace(rows, n) <= a + b + c;
    hide Selected, Replace, UniqueKeys;
    KeySelectsAtMostOne(rows, ByBlake3(n.blake3));
    KeySelectsAtMostOne(rows, BySha256(n.sha256));
    KeySelectsAtMostOne(rows, ByStorePath(n.storePath));
    SubsetCard(rows - Replace(rows, n), a + b + c);
    UnionSize(a + b, c);
    UnionSize(a, b);
  }

  lemma AtMostOne<T>(s: set<T>)
    requires forall x, y :: x in s && y in s ==> x == y
    ensures |s| <= 1
  {
    if s != {} {
      var x :| x in s;
      assert s == {x};
    }
  }

  /** The answer of a unique-key lookup. */
  ghost predicate Answers(rows: set<Row>, q: KeyQuery, r: Option<HashEntry>) {
    match r
    case None => forall row :: row in rows ==> !Matches(q, row)
    case Some(e) => exists row :: row in rows && Matches(q, row) && e == FromRow(row)
  }

  /** Keyed lookups are functions of the table. */
  lemma AnswerIsUnique(rows: set<Row>, q: KeyQuery, a: Option<HashEntry>, b: Option<HashEntry>)
    requires UniqueKeys(rows) && Answers(rows, q, a) && Answers(rows, q, b)
    ensures a == b
  {
    hide FromRow;
    if a.Some? && b.Some? {
      var r :| r in rows && Matches(q, r) && a.value == FromRow(r);
      var s :| s in rows && Matches(q, s) && b.value == FromRow(s);
      assert Clash(r, s);
    }
  }

  /** After an insert, all three keys of the entry lead to it, as far as the columns can hold it. */
  lemma InsertedIsFound(rows: set<Row>, e: HashEntry, q: KeyQuery, answer: Option<HashEntry>)
    requires Sized(e) && TableOk(rows) && Answers(Replace(rows, ToRow(e)), q, answer)
    requires q == ByBlake3(e.blake3) || q == BySha256(e.sha256) || q == ByStorePath(e.storePath)
    ensures answer == Some(FromRow(ToRow(e)))
    ensures Storable(e) ==> answer == Some(e)
  {
    hide FromRow, Storable;
    var t := Replace(rows, ToRow(e));
    ReplaceKeepsTable(rows, e);
    assert ToRow(e) in t && Matches(q, ToRow(e));
    assert Answers(t, q, Some(FromRow(ToRow(e))));
    AnswerIsUnique(t, q, answer, Some(FromRow(ToRow(e))));
    RowRestoresExactly(e);
  }

  /** A row that does not clash with the new one is still found under its keys. */
  lemma OthersAreStillFound(rows: set<Row>, e: HashEntry, row: Row, q: KeyQuery, answer: Option<HashEntry>)
    requires Sized(e) && TableOk(rows) && row in rows && !Clash(row, ToRow(e)) && Matches(q, row)
    requires Answers(Replace(rows, ToRow(e)), q, answer)
    ensures answer == Some(FromRow(row))
  {
    hide FromRow, ToRow;
    var t := Replace(rows, ToRow(e));
    ReplaceKeepsTable(rows, e);
    assert row in t;
    assert Answers(t, q, Some(FromRow(row)));
    AnswerIsUnique(t, q, answer, Some(FromRow(row)));
  }

  lemma DeleteKeepsTable(rows: set<Row>, h: Hash)
    requires TableOk(rows)
    ensures TableOk(set r | r in rows && r.blake3 != h)
    ensures |rows - (set r | r in rows && r.blake3 != h)| <= 1
  {
    hide ExtractStoreHash;
    var gone := Selected(rows, ByBlake3(h));
    KeySelectsAtMostOne(rows, ByBlake3(h));
    assert rows - (set r | r in rows && r.blake3 != h) == gone;
  }

  // --- Runs ----------------------------------------------------------------------------------------------------

  datatype Change = Insertion(entry: HashEntry) | Deletion(h: Hash)

  ghost predicate SizedChanges(changes: seq<Change>) {
    forall i :: 0 <= i < |changes| && changes[i].Insertion? ==> Sized(changes[i].entry)
  }

  /** The table after these changes. */
  ghost function TableAfter(rows: set<Row>, changes: seq<Change>): set<Row>
    requires SizedChanges(changes)
  {
    if changes == [] then rows
    else
      var before := TableAfter(rows, changes[..|changes| - 1]);
      match changes[|changes| - 1]
      case Insertion(e) => Replace(before, ToRow(e))
      case Deletion(h) => set r | r in before && r.blake3 != h
  }

  lemma {:induction false} RunKeepsTable(rows: set<Row>, changes: seq<Change>)
    requires SizedChanges(changes) && TableOk(rows)
    ensures TableOk(TableAfter(rows, changes))
  {
    hide TableOk, Replace;
    if changes != [] {
      var before, last := TableAfter(rows, changes[..|changes| - 1]), changes[|changes| - 1];
      RunKeepsTable(rows, changes[..|changes| - 1]);
      if last.Insertion? { ReplaceKeepsTable(before, last.entry); } else { DeleteKeepsTable(before, last.h); }
    }
  }

  /** The change takes this row away. */
  ghost predicate Displaces(c: Change, row: Row)
    requires c.Insertion? ==> Sized(c.entry)
  {
    match c
    case Insertion(e) => Clash(row, ToRow(e))
    case Deletion(h) => row.blake3 == h
  }

  /** No change from position i on takes this row away. */
  ghost predicate KeptFrom(changes: seq<Change>, i: nat, row: Row)
    requires SizedChanges(changes)
  {
    forall j :: i <= j < |changes| ==> !Displaces(changes[j], row)
  }

  ghost predicate InsertedAt(changes: seq<Change>, i: nat, row: Row)
    requires SizedChanges(changes)
  {
    i < |changes| && changes[i].Insertion? && ToRow(changes[i].entry) == row
  }

  /** On every run, the table holds exactly the rows that were there or inserted and that no later change
      displaced, by inserting under one of their three keys or deleting their BLAKE3 hash. */
  lemma {:induction false} TableIsSurvivors(rows: set<Row>, changes: seq<Change>, row: Row)
    requires SizedChanges(changes)
    ensures row in TableAfter(rows, changes) <==>
            || (row in rows && KeptFrom(changes, 0, row))
            || exists i: nat :: InsertedAt(changes, i, row) && KeptFrom(changes, i + 1, row)
  {
    hide ToRow;
    if changes != [] {
      var front, n := changes[..|changes| - 1], |changes| - 1;
      TableIsSurvivors(rows, front, row);
      forall i: nat | i <= n ensures KeptFrom(changes, i, row) == (KeptFrom(front, i, row) && !Displaces(changes[n], row)) {
        assert forall j :: i <= j < n ==> front[j] == changes[j];
      }
      assert forall i: nat :: i < n ==> InsertedAt(front, i, row) == InsertedAt(changes, i, row);
      if row in TableAfter(rows, changes) {
        if InsertedAt(changes, n, row) {
          assert KeptFrom(changes, n + 1, row);
        } else if i: nat :| InsertedAt(front, i, row) && KeptFrom(front, i + 1, row) {
          assert InsertedAt(changes, i, row) && KeptFrom(changes, i + 1, row);
        }
      }
      if i: nat :| InsertedAt(changes, i, row) && KeptFrom(changes, i + 1, row) {
        if i < n { assert InsertedAt(front, i, row) && KeptFrom(front, i + 1, row); }
      }
    }
  }

  // --- From the table to the served text and back ----------------------------------------------------------

  /** An answer to a lookup by store hash: an entry of some row whose path has it, or nothing if none has. */
  ghost predicate AnswersHash(rows: set<Row>, h: string, r: Option<HashEntry>) {
    match r
    case None => forall row :: row in rows ==> ExtractStoreHash(row.storePath) != Some(h)
    case Some(e) => exists row :: row in rows && e == FromRow(row) && ExtractStoreHash(row.storePath) == Some(h)
  }

  /** The path is one line without outer whitespace, and the deriver's basename, if any, says something. */
  predicate ServableRow(row: Row) {
    && Trimmed(row.storePath) && NoNewline(row.storePath)
    && (row.deriver.Some? ==> var b := row.deriver.value; b != "" && b != "unknown-deriver" && Trimmed(b) && NoNewline(b))
  }

  lemma RowReferencesAreGood(row: Row)
    ensures forall r :: r in FromRow(row).references ==> GoodReference(r)
    ensures FromRow(row).narSize < U64
  {
    hide GoodReference;
    SplitYieldsWords(row.references);
    StorePathsAreGood(SplitWords(row.references));
  }

  lemma ServableIsWellFormed(row: Row)
    ensures WellFormedEntry(FromRow(row)) <==> ServableRow(row)
  {
    hide GoodReference, Trimmed, NoNewline;
    RowReferencesAreGood(row);
    if row.deriver.Some? {
      assert (STORE + row.deriver.value)[|STORE|..] == row.deriver.value;
    }
  }

  /** Serving any row and parsing the text recovers the row's entry exactly when the row is servable; the
      references of a stored row are always good. */
  lemma ServedRowExactly(row: Row, sri: Sri)
    ensures ParseNarInfo(Unlines(BodyLines(FromRow(row))), sri) == Some(Served(FromRow(row))) <==> ServableRow(row)
  {
    hide FromRow, BodyLines, Served, WellFormedEntry, ServableRow, ParseNarInfo, Unlines;
    RowReferencesAreGood(row);
    ServableIsWellFormed(row);
    NarInfoRoundTripExactly(FromRow(row), sri);
  }

  /** Index and substituter together: after an insert, looking the entry up by its store hash, serving it and
      parsing the text recovers everything exactly when the entry is well formed, provided no other path in
      the table has the same hash. */
  lemma InsertedIsServedExactly(rows: set<Row>, e: HashEntry, h: string, answer: Option<HashEntry>, sri: Sri)
    requires Sized(e) && TableOk(rows) && ExtractStoreHash(e.storePath) == Some(h)
    requires forall r :: r in rows && ExtractStoreHash(r.storePath) == Some(h) ==> r.storePath == e.storePath
    requires AnswersHash(Replace(rows, ToRow(e)), h, answer)
    ensures answer == Some(FromRow(ToRow(e)))
    ensures ParseNarInfo(Unlines(BodyLines(answer.value)), sri) == Some(Served(e)) <==> WellFormedEntry(e)
  {
    OnlyInsertedAnswers(rows, e, h, answer);
    hide BodyLines, ParseNarInfo, Unlines, FromRow, ToRow, GoodReference, GoodDeriver, Trimmed, NoNewline;
    var text := Unlines(BodyLines(answer.value));
    RowReferencesAreGood(ToRow(e));
    if WellFormedEntry(e) {
      assert Storable(e) by { DerivedIsStorable(e); }
      RowRestoresExactly(e);
      NarInfoRoundTripExactly(e, sri);
    }
    if ParseNarInfo(text, sri) == Some(Served(e)) { ParsedIsClean(text, sri); }
  }

  lemma DerivedIsStorable(e: HashEntry)
    requires WellFormedEntry(e)
    ensures Storable(e)
  {
    hide GoodReference;
  }

  lemma OnlyInsertedAnswers(rows: set<Row>, e: HashEntry, h: string, answer: Option<HashEntry>)
    requires Sized(e) && ExtractStoreHash(e.storePath) == Some(h)
    requires forall r :: r in rows && ExtractStoreHash(r.storePath) == Some(h) ==> r.storePath == e.storePath
    requires AnswersHash(Replace(rows, ToRow(e)), h, answer)
    ensures answer == Some(FromRow(ToRow(e)))
  {
    hide FromRow, ExtractStoreHash, JoinWords, Basenames, Basename;
    assert ToRow(e) in Replace(rows, ToRow(e));
  }

  /** substituter.rs:203: the store hash that a narinfo request asks for. */
  function RequestedHash(path: string): string { DropBack(DropFront(path, "/"), ".narinfo") }

  lemma RequestNamesHash(h: string)
    requires h != "" && '/' !in h && 'o' !in h
    ensures RequestedHash("/" + h + ".narinfo") == h
  {
    DropBoth("/", h, ".narinfo");
  }

  /** From an insert to a client that asks for the entry's narinfo: for a path written as store directory, hash,
      dash and name, the request /<hash>.narinfo leads to the entry, and the client's parse recovers everything
      exactly when the entry is well formed, provided no other path in the table has the same hash.  Hashes are in
      base 32, which has no 'o'. */
  lemma RequestIsServedExactly(rows: set<Row>, e: HashEntry, h: string, name: string, answer: Option<HashEntry>, sri: Sri)
    requires Sized(e) && TableOk(rows) && e.storePath == STORE + h + "-" + name
    requires h != "" && IsBase32(h)
    requires forall r :: r in rows && r.storePath != e.storePath ==> r.storePath != STORE + h && !(STORE + h + "-" <= r.storePath)
    requires AnswersHash(Replace(rows, ToRow(e)), RequestedHash("/" + h + ".narinfo"), answer)
    ensures answer.Some? && answer.value.storePath == STORE + h + "-" + name
    ensures ParseNarInfo(Unlines(BodyLines(answer.value)), sri) == Some(Served(e)) <==> WellFormedEntry(e)
  {
    hide ExtractStoreHash, TableOk, Replace, AnswersHash, BodyLines, ParseNarInfo, Unlines, WellFormedEntry, IsBase32, RequestedHash, Served;
    Base32Plain(h);
    RequestNamesHash(h);
    StoreHashExactly(e.storePath, h);
    forall r | r in rows && ExtractStoreHash(r.storePath) == Some(h) ensures r.storePath == e.storePath {
      StoreHashExactly(r.storePath, h);
      if name' :| r.storePath == STORE + h + "-" + name' { assert STORE + h + "-" <= r.storePath; }
    }
    InsertedIsServedExactly(rows, e, h, answer, sri);
  }

  lemma Base32Plain(h: string)
    requires IsBase32(h)
    ensures '-' !in h && '/' !in h && 'o' !in h
  {
    AlphabetIs('-');
    AlphabetIs('/');
    AlphabetIs('o');
  }

  /** substituter.rs:319-325: the archive that a request for a served URL asks for. */
  function RequestedNar(path: string): Option<seq<Byte>> {
    match HexDecode(DropBack(DropFront(path, "/nar/"), ".nar"))
    case Some(b) => if |b| == 32 then Some(b) else None
    case None => None
  }

  /** Following the URL of a served narinfo asks for the archive with the entry's BLAKE3 hash. */
  lemma ServedUrlIsRequested(e: HashEntry)
    ensures RequestedNar("/" + Served(e).url) == Some(e.blake3)
  {
    hide HexDecode, Hex, HexDigit, DropBack, DropFront, NixBase32;
    var digits := Hex(e.blake3);
    HexRoundTrip(e.blake3);
    HexDigitsAt(e.blake3, 0);
    HexDigitsAt(e.blake3, 31);
    DropBoth("/nar/", digits, ".nar");
    assert "/" + Served(e).url == "/nar/" + digits + ".nar";
  }

  class HashIndex {
    var rows: set<Row>

    ghost predicate Valid()
      reads this
    {
      TableOk(rows)
    }

    constructor ()
      ensures Valid() && rows == {}
    {
      rows := {};
    }

    /** hash_index.rs:229-250 */
    method Insert(e: HashEntry)
      requires Valid() && Sized(e)
      modifies this
      ensures Valid() && rows == Replace(old(rows), ToRow(e))
      ensures |old(rows) - rows| <= 3
    {
      ReplaceKeepsTable(rows, e);
      ReplaceRemovesAtMostThree(rows, ToRow(e));
      rows := Replace(rows, ToRow(e));
    }

    /** hash_index.rs:253-292 */
    method Get(q: KeyQuery) returns (r: Option<HashEntry>)
      requires Valid()
      ensures Answers(rows, q, r)
    {
      hide FromRow;
      if exists row :: row in rows && Matches(q, row) {
        var row :| row in rows && Matches(q, row);
        r := Some(FromRow(row));
      } else {
        r := None;
      }
    }

    /** hash_index.rs:295-306: several paths may share a store hash; any of them may be returned. */
    method GetByStoreHash(h: string) returns (r: Option<HashEntry>)
      requires Valid()
      ensures AnswersHash(rows, h, r)
    {
      hide ExtractStoreHash;
      if exists row :: row in rows && row.storeHash == Some(h) {
        var row :| row in rows && row.storeHash == Some(h);
        r := Some(FromRow(row));
      } else {
        r := None;
      }
    }

    /** hash_index.rs:309-315 */
    method DeleteByBlake3(h: Hash) returns (deleted: bool)
      requires Valid()
      modifies this
      ensures Valid() && rows == (set r | r in old(rows) && r.blake3 != h)
      ensures deleted <==> exists r :: r in old(rows) && r.blake3 == h
      ensures |old(rows) - rows| <= 1
    {
      hide TableOk;
      deleted := exists r :: r in rows && r.blake3 == h;
      DeleteKeepsTable(rows, h);
      rows := set r | r in rows && r.blake3 != h;
    }

    /** hash_index.rs:189-206: rows written before the column existed have no store hash yet; the
        backfill gives every row the extracted one and changes nothing else. */
    method Migrate()
      requires UniqueKeys(rows) && forall r :: r in rows ==> r.storeHash == None
      modifies this
      ensures Valid() && rows == set r | r in old(rows) :: r.(storeHash := ExtractStoreHash(r.storePath))
    {
      hide ExtractStoreHash;
      var todo := rows;
      var done := {};
      while todo != {}
        invariant todo <= rows && rows == old(rows)
        invariant done == set r | r in rows - todo :: Backfilled(r)
        decreases todo
      {
        var r :| r in todo;
        assert (rows - todo) + {r} == rows - (todo - {r});
        todo := todo - {r};
        var hash := ExtractStoreHash(r.storePath);
        if hash.Some? {
          done := done + {r.(storeHash := hash)};
        } else {
          done := done + {r};
        }
      }
      assert rows - todo == rows;
      BackfillKeepsKeys(rows);
      rows := done;
    }
  }

  function Backfilled(r: Row): Row { r.(storeHash := ExtractStoreHash(r.storePath)) }

  lemma BackfillKeepsKeys(rows: set<Row>)
    requires UniqueKeys(rows)
    ensures TableOk(set r | r in rows :: Backfilled(r))
  {
    hide ExtractStoreHash;
    var t := set r | r in rows :: Backfilled(r);
    forall x, y | x in t && y in t && Clash(x, y) ensures x == y {
      var r :| r in rows && x == Backfilled(r);
      var s :| s in rows && y == Backfilled(s);
      assert Clash(r, s);
    }
  }
}
