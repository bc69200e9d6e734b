/**
 * The population script of the recording catalogue: it scans the audio
 * directory for recordings named `YYMMDD... --- Title.mp3`, inserts a row
 * for every new one, and deletes the rows whose file is no longer there.
 *
 * The directory listing is given as a parameter (`None` when reading the
 * directory fails, which the script catches); the table and the disk are
 * the `Catalogue.Table` object.
 */
module Reconcile {
  import opened Wrappers
  import opened JsStrings
  import opened Decimal
  import opened Paths
  import opened Dates
  import opened Catalogue

  /** An entry of `readdirSync(dir, { withFileTypes: true })`. */
  datatype DirEntry = DirEntry(name: string, isFile: bool)

  /** A record of `getAudioFiles`. */
  datatype Scanned = Scanned(filePath: string, year: string)

  /** The columns of a row the script inserts. */
  datatype Insertion = Insertion(year: string, sortDate: string, displayDate: string, title: string, filePath: string)

  /** `./db/audio`, normalised. */
  const AudioDir: seq<string> := ["db", "audio"]

  /** The separator between the date and the title in a file name. */
  const TitleSeparator: string := " --- "

  /** A regular file with extension `.mp3` in any letter case, whose name starts with six digits. */
  predicate IsCandidate(e: DirEntry) {
    && e.isFile
    && AsciiLower(Extname(e.name)) == ".mp3"
    && |e.name| >= 6 && AllDigits(e.name[..6])
  }

  /** `path.join("db/audio", name)`: where a file of the audio directory is stored. */
  function AudioPath(name: string): string {
    RenderRelative(JoinRelative(AudioDir, name))
  }

  /** `path.join(dir, name).replace("./db/audio", "../../db/audio")`. */
  function ScanPath(name: string): string {
    Replace(AudioPath(name), "./db/audio", "../../db/audio")
  }

  /** The record of a candidate: its path, and `"20"` followed by the first two digits. */
  function ScanOf(e: DirEntry): Scanned
    requires IsCandidate(e)
  {
    Scanned(ScanPath(e.name), "20" + e.name[..2])
  }

  /** The records `getAudioFiles` returns, in directory order. */
  function ScanAll(entries: seq<DirEntry>): (r: seq<Scanned>)
    ensures |r| <= |entries|
  {
    if entries == [] then []
    else
      var e := entries[|entries| - 1];
      ScanAll(entries[..|entries| - 1]) + (if IsCandidate(e) then [ScanOf(e)] else [])
  }

  /**
   * A record is scanned exactly when it is the record of a candidate entry:
   * other entries (directories, other extensions, names without six
   * leading digits) are left out.
   */
  lemma ScannedExactly(entries: seq<DirEntry>, s: Scanned)
    ensures s in ScanAll(entries) <==> exists e :: e in entries && IsCandidate(e) && ScanOf(e) == s
  {
    if s in ScanAll(entries) {
      ScannedFromCandidate(entries, s);
    } else {
      forall e | e in entries && IsCandidate(e) ensures ScanOf(e) != s {
        var i :| 0 <= i < |entries| && entries[i] == e;
        CandidateScanned(entries, i);
      }
    }
  }

  /** Every scanned record comes from a candidate entry. */
  lemma {:induction false} ScannedFromCandidate(entries: seq<DirEntry>, s: Scanned)
    requires s in ScanAll(entries)
    ensures exists e :: e in entries && IsCandidate(e) && ScanOf(e) == s
  {
    var init := entries[..|entries| - 1];
    var last := entries[|entries| - 1];
    var tail := if IsCandidate(last) then [ScanOf(last)] else [];
    assert ScanAll(entries) == ScanAll(init) + tail;
    if s in ScanAll(init) {
      ScannedFromCandidate(init, s);
      var x :| x in init && IsCandidate(x) && ScanOf(x) == s;
      assert x in entries;
    } else {
      assert s in tail;
      assert last in entries;
    }
  }

  /** Every candidate entry is scanned. */
  lemma {:induction false} CandidateScanned(entries: seq<DirEntry>, i: nat)
    requires i < |entries| && IsCandidate(entries[i])
    ensures ScanOf(entries[i]) in ScanAll(entries)
  {
    var init := entries[..|entries| - 1];
    var last := entries[|entries| - 1];
    var tail := if IsCandidate(last) then [ScanOf(last)] else [];
    assert ScanAll(entries) == ScanAll(init) + tail;
    if i == |entries| - 1 {
      assert ScanOf(last) in tail;
    } else {
      assert init[i] == entries[i];
      CandidateScanned(init, i);
    }
  }

  /** The only `/` characters of `db/audio/<name>` are at indexes 2 and 8. */
  lemma SlashesOfAudioPath(name: string)
    requires '/' !in name
    ensures forall k :: 0 <= k < |"db/audio/" + name| && k != 2 && k != 8 ==> ("db/audio/" + name)[k] != '/'
  {
    var s := "db/audio/" + name;
    forall k | 0 <= k < |s| && k != 2 && k != 8 ensures s[k] != '/' {
      if k >= 9 {
        assert s[k] == name[k - 9];
      }
    }
  }

  /** `./db/audio` does not occur in `db/audio/<name>`. */
  lemma NoDotAudioDir(name: string)
    requires '/' !in name
    ensures IndexOf("db/audio/" + name, "./db/audio").None?
  {
    var s := "db/audio/" + name;
    var p := "./db/audio";
    SlashesOfAudioPath(name);
    forall j: nat ensures !OccursAt(s, p, j) {
      if j + |p| <= |s| {
        if j == 1 || j == 7 {
          assert s[j..j + |p|][4] == s[j + 4] != '/';
        } else {
          assert s[j..j + |p|][1] == s[j + 1] != '/';
        }
      }
    }
  }

  lemma AudioPathOfName(name: string)
    requires IsName(name)
    ensures AudioPath(name) == "db/audio/" + name
  {
    JoinName(AudioDir, name);
    assert AudioDir + [name] == ["db", "audio", name];
    assert ["db", "audio", name][1..] == ["audio", name];
    assert ["audio", name][1..] == [name];
    assert Join([name], "/") == name;
    assert Join(["audio", name], "/") == "audio" + "/" + name;
    assert Join(["db", "audio", name], "/") == "db" + "/" + ("audio" + "/" + name);
    assert "db" + "/" + ("audio" + "/" + name) == "db/audio/" + name;
  }

  /**
   * For a file name from the listing the path is `db/audio/<name>`: `path.join`
   * drops the leading `./`, so the `replace` finds nothing to replace.
   */
  lemma ScanPathOfName(name: string)
    requires IsName(name)
    ensures ScanPath(name) == "db/audio/" + name
  {
    AudioPathOfName(name);
    NoDotAudioDir(name);
  }

  /** The base name of `db/audio/<name>` is the name. */
  lemma BaseOfAudioPath(name: string)
    requires IsName(name)
    ensures BaseOf(AudioPath(name)) == name
  {
    AudioPathOfName(name);
    AudioPathSegments(name);
  }

  lemma AudioPathSegments(name: string)
    requires IsName(name)
    ensures Split("db/audio/" + name, "/") == ["db", "audio", name]
  {
    var rest := "audio" + ['/'] + name;
    assert "db/audio/" + name == "db" + ['/'] + rest;
    AudioDirNamesHaveNoSlash();
    SplitCharCons("db", '/', rest);
    SplitCharCons("audio", '/', name);
    SplitCharNone(name, '/');
  }

  lemma AudioDirNamesHaveNoSlash()
    ensures '/' !in "db" && '/' !in "audio"
  {
    var a, b := "db", "audio";
    assert forall i :: 0 <= i < |a| ==> a[i] != '/';
    assert forall i :: 0 <= i < |b| ==> b[i] != '/';
  }

  lemma ScanAllStep(entries: seq<DirEntry>, i: nat)
    requires i < |entries|
    ensures ScanAll(entries[..i + 1])
      == ScanAll(entries[..i]) + (if IsCandidate(entries[i]) then [ScanOf(entries[i])] else [])
  {
    assert entries[..i + 1][..i] == entries[..i];
  }

  /**
   * One step of `getAudioFiles`: the record of an entry when it is a file
   * ending in `.mp3` (in any case) whose name starts with six digits.
   */
  method ScanEntry(entry: DirEntry) returns (found: seq<Scanned>)
    ensures found == if IsCandidate(entry) then [ScanOf(entry)] else []
  {
    found := [];
    if entry.isFile {
      var ext := AsciiLower(Extname(entry.name));
      if ext == ".mp3" {
        if |entry.name| >= 6 && AllDigits(entry.name[..6]) {
          var digits := entry.name[..6];
          assert Substring(digits, 0, 2) == entry.name[..2];
          found := [Scanned(ScanPath(entry.name), "20" + Substring(digits, 0, 2))];
        }
      }
    }
  }

  /** `getAudioFiles`: one pass over the listing, pushing a record for every candidate. */
  method GetAudioFiles(entries: seq<DirEntry>) returns (files: seq<Scanned>)
    ensures files == ScanAll(entries)
  {
    files := [];
    var i := 0;
    while i < |entries|
      invariant 0 <= i <= |entries|
      invariant files == ScanAll(entries[..i])
    {
      var found := ScanEntry(entries[i]);
      ScanAllStep(entries, i);
      files := files + found;
      i := i + 1;
    }
    assert entries[..i] == entries;
  }

  /** The row a new record gives: only when its stem splits into exactly two parts on `" --- "`. */
  function InsertionOf(s: Scanned): (r: Option<Insertion>)
    ensures r.Some? ==> r.value.filePath == s.filePath && r.value.year == s.year
  {
    var data := Split(Stem(BaseOf(s.filePath)), TitleSeparator);
    if |data| == 2 then Some(Insertion(s.year, SortDate(data[0]), DisplayDate(data[0]), data[1], s.filePath))
    else None
  }

  /**
   * What a pass over `xs` gathers, in order, when each record contributes
   * `f` of itself.
   */
  function Collect(xs: seq<Scanned>, f: Scanned -> seq<Insertion>): (r: seq<Insertion>)
    ensures xs == [] ==> r == []
  {
    if xs == [] then []
    else Collect(xs[..|xs| - 1], f) + f(xs[|xs| - 1])
  }

  /** The rows the first loop inserts, in order: new paths whose stem splits in two. */
  function Insertions(scanned: seq<Scanned>, existing: set<string>): (r: seq<Insertion>)
    ensures |r| <= |scanned|
  {
    CollectAtMostOne(scanned, s => NewInsertion(s, existing));
    Collect(scanned, s => NewInsertion(s, existing))
  }

  /** The row, if any, one scanned record adds. */
  function NewInsertion(s: Scanned, existing: set<string>): seq<Insertion> {
    if s.filePath !in existing && InsertionOf(s).Some? then [InsertionOf(s).value] else []
  }

  /** When every record contributes at most one item, so many are gathered at most. */
  lemma {:induction false} CollectAtMostOne(xs: seq<Scanned>, f: Scanned -> seq<Insertion>)
    requires forall s :: |f(s)| <= 1
    ensures |Collect(xs, f)| <= |xs|
  {
    if xs != [] {
      CollectAtMostOne(xs[..|xs| - 1], f);
    }
  }

  /** Whatever the `k`-th record contributes is gathered. */
  lemma {:induction false} CollectHas(xs: seq<Scanned>, f: Scanned -> seq<Insertion>, k: nat, x: Insertion)
    requires k < |xs| && x in f(xs[k])
    ensures x in Collect(xs, f)
  {
    var init := xs[..|xs| - 1];
    if k < |xs| - 1 {
      assert init[k] == xs[k];
      CollectHas(init, f, k, x);
      InInit(Collect(init, f), f(xs[|xs| - 1]), x);
    }
  }

  /** Whatever is gathered was contributed by some record. */
  lemma {:induction false} CollectFrom(xs: seq<Scanned>, f: Scanned -> seq<Insertion>, x: Insertion) returns (k: nat)
    requires x in Collect(xs, f)
    ensures k < |xs| && x in f(xs[k])
  {
    var init := xs[..|xs| - 1];
    if x in Collect(init, f) {
      k := CollectFrom(init, f, x);
      assert init[k] == xs[k];
    } else {
      k := |xs| - 1;
    }
  }

  lemma InInit<T>(a: seq<T>, b: seq<T>, x: T)
    requires x in a
    ensures x in a + b
  {
  }

  /**
   * The rows inserted are exactly those of the scanned records whose path
   * is new and whose stem splits in two.
   */
  lemma InsertionsExactly(scanned: seq<Scanned>, existing: set<string>)
    ensures forall s :: s in scanned && s.filePath !in existing && InsertionOf(s).Some? ==>
      InsertionOf(s).value in Insertions(scanned, existing)
    ensures forall i :: i in Insertions(scanned, existing) ==>
      var s := Scanned(i.filePath, i.year);
      s in scanned && i.filePath !in existing && InsertionOf(s) == Some(i)
  {
    var f := s => NewInsertion(s, existing);
    assert Insertions(scanned, existing) == Collect(scanned, f);
    forall s | s in scanned && s.filePath !in existing && InsertionOf(s).Some?
      ensures InsertionOf(s).value in Insertions(scanned, existing)
    {
      var k :| 0 <= k < |scanned| && scanned[k] == s;
      assert InsertionOf(s).value in f(scanned[k]);
      CollectHas(scanned, f, k, InsertionOf(s).value);
    }
    forall i | i in Insertions(scanned, existing)
      ensures var s := Scanned(i.filePath, i.year); s in scanned && i.filePath !in existing && InsertionOf(s) == Some(i)
    {
      var k := CollectFrom(scanned, f, i);
      assert i in NewInsertion(scanned[k], existing);
      assert Scanned(i.filePath, i.year) == scanned[k];
    }
  }

  /** The inserted rows with the ids the table hands out, from `start` on. */
  function Numbered(ins: seq<Insertion>, start: nat): (r: seq<Row>)
    ensures |r| == |ins|
  {
    if ins == [] then []
    else
      var i := ins[|ins| - 1];
      Numbered(ins[..|ins| - 1], start) + [Row(start + |ins| - 1, i.year, i.sortDate, i.displayDate, i.title, i.filePath)]
  }

  /** The `k`-th inserted row carries id `start + k` and the columns of the `k`-th insertion. */
  lemma {:induction false} NumberedAt(ins: seq<Insertion>, start: nat)
    ensures forall k :: 0 <= k < |ins| ==>
      var i := ins[k];
      Numbered(ins, start)[k] == Row(start + k, i.year, i.sortDate, i.displayDate, i.title, i.filePath)
  {
    if ins != [] {
      var init := ins[..|ins| - 1];
      NumberedAt(init, start);
      forall k | 0 <= k < |init| ensures ins[k] == init[k] {
      }
    }
  }

  function PathsOf(rows: seq<Row>): set<string> {
    set x | x in rows :: x.filePath
  }

  function ProcessedPaths(scanned: seq<Scanned>): set<string> {
    set s | s in scanned :: s.filePath
  }

  /** The rows whose path is among `processed`, in storage order. */
  function KeepProcessed(rows: seq<Row>, processed: set<string>): (r: seq<Row>)
    ensures forall x :: x in r <==> x in rows && x.filePath in processed
  {
    if rows == [] then []
    else
      var rest := KeepProcessed(rows[1..], processed);
      assert rows == [rows[0]] + rows[1..];
      if rows[0].filePath in processed then [rows[0]] + rest else rest
  }

  /** The table's rows after a pass: the kept rows, then the inserted ones. */
  function Reconciled(rows: seq<Row>, nextId: nat, scanned: seq<Scanned>): seq<Row> {
    KeepProcessed(rows, ProcessedPaths(scanned)) + Numbered(Insertions(scanned, PathsOf(rows)), nextId)
  }

  /** The paths a pass unlinks: those of the rows whose file was not scanned. */
  function Unlinked(rows: seq<Row>, scanned: seq<Scanned>): set<string> {
    UnprocessedPaths(rows, ProcessedPaths(scanned))
  }

  lemma InsertionsStep(scanned: seq<Scanned>, i: nat, existing: set<string>)
    requires i < |scanned|
    ensures Insertions(scanned[..i + 1], existing) == Insertions(scanned[..i], existing) + NewInsertion(scanned[i], existing)
  {
    assert scanned[..i + 1][..i] == scanned[..i];
  }

  lemma NumberedStep(ins: seq<Insertion>, x: Insertion, start: nat)
    ensures Numbered(ins + [x], start)
      == Numbered(ins, start) + [Row(start + |ins|, x.year, x.sortDate, x.displayDate, x.title, x.filePath)]
  {
    assert (ins + [x])[..|ins|] == ins;
  }

  /** Every inserted row has an id at or past `start`. */
  lemma NumberedIds(ins: seq<Insertion>, start: nat, x: Row)
    requires x in Numbered(ins, start)
    ensures start <= x.id < start + |ins|
  {
    NumberedAt(ins, start);
  }

  /** The inserted rows have distinct ids, and none of an existing table's. */
  lemma AppendFresh(rows: seq<Row>, nextId: nat, ins: seq<Insertion>)
    requires UniqueIds(rows) && forall x :: x in rows ==> x.id < nextId
    ensures UniqueIds(rows + Numbered(ins, nextId))
  {
    var all := rows + Numbered(ins, nextId);
    NumberedAt(ins, nextId);
    forall i, j | 0 <= i < j < |all| ensures all[i].id != all[j].id {
      if j >= |rows| && i < |rows| {
        assert rows[i] in rows;
      }
    }
  }

  /** Deleting a row of the original table, given which ids were already deleted. */
  lemma DeleteStep(r0: seq<Row>, added: seq<Row>, deleted: set<nat>, e: Row, bound: nat)
    requires UniqueIds(r0) && e in r0
    requires forall x :: x in r0 ==> x.id < bound
    requires forall x :: x in added ==> x.id >= bound
    ensures var rows := WithoutIds(r0, deleted) + added;
      && (e.id in deleted ==> Lookup(rows, e.id).None?)
      && (e.id !in deleted ==> Lookup(rows, e.id) == Some(e))
      && WithoutIds(rows, {e.id}) == WithoutIds(r0, deleted + {e.id}) + added
  {
    var rows := WithoutIds(r0, deleted) + added;
    WithoutIdsMembers(r0, deleted);
    WithoutIdsAppend(WithoutIds(r0, deleted), added, {e.id});
    WithoutIdsTwice(r0, deleted, {e.id});
    assert e.id < bound;
    WithoutIdsNone(added, {e.id});
    match Lookup(rows, e.id)
    case None =>
      assert e.id !in deleted ==> e in rows;
    case Some(y) =>
      if y in added {
        assert false;
      } else {
        assert y in r0;
        SameIdSameRow(r0, y, e);
      }
  }

  /** Removing the ids of the rows whose path was not processed keeps exactly the processed rows. */
  lemma {:induction false} KeepByIds(r0: seq<Row>, l: seq<Row>, p: set<string>)
    requires UniqueIds(r0) && forall x :: x in l ==> x in r0
    ensures WithoutIds(l, UnprocessedIds(r0, p)) == KeepProcessed(l, p)
  {
    var ids := UnprocessedIds(r0, p);
    if l != [] {
      var h := l[0];
      assert h in l;
      forall x | x in l[1..] ensures x in r0 {
        assert x in l;
      }
      KeepByIds(r0, l[1..], p);
      if h.id in ids {
        var y :| y in r0 && y.filePath !in p && y.id == h.id;
        SameIdSameRow(r0, y, h);
      }
    }
  }

  /**
   * One turn of the first loop: a path not among the existing ones whose
   * stem splits in two is inserted by `createNewEntry`, with the next id.
   */
  method InsertIfNew(t: Table, s: Scanned, existingPaths: set<string>,
                     ghost r0: seq<Row>, ghost id0: nat, ghost before: seq<Insertion>)
    requires t.Valid() && t.rows == r0 + Numbered(before, id0) && t.nextId == id0 + |before|
    modifies t
    ensures t.Valid()
    ensures t.rows == r0 + Numbered(before + NewInsertion(s, existingPaths), id0)
    ensures t.nextId == id0 + |before + NewInsertion(s, existingPaths)| && t.disk == old(t.disk)
  {
    if s.filePath !in existingPaths {
      var fileName := Stem(BaseOf(s.filePath));
      var data := Split(fileName, TitleSeparator);
      if |data| == 2 {
        var rawDate, title := data[0], data[1];
        NewInsertionOf(s, existingPaths);
        ghost var ins := Insertion(s.year, SortDate(rawDate), DisplayDate(rawDate), title, s.filePath);
        var row := t.Create(s.year, SortDate(rawDate), DisplayDate(rawDate), title, s.filePath);
        InsertionAppends(r0, before, id0, ins, row);
        return;
      }
    }
    NothingNew(s, existingPaths);
    assert before + [] == before;
  }

  /** A new path whose stem splits in two adds the insertion read off its stem. */
  lemma NewInsertionOf(s: Scanned, existing: set<string>)
    requires s.filePath !in existing && |Split(Stem(BaseOf(s.filePath)), TitleSeparator)| == 2
    ensures var data := Split(Stem(BaseOf(s.filePath)), TitleSeparator);
      NewInsertion(s, existing) == [Insertion(s.year, SortDate(data[0]), DisplayDate(data[0]), data[1], s.filePath)]
  {
  }

  /** Appending one insertion adds its row, numbered next, to the end of the table. */
  lemma InsertionAppends(r0: seq<Row>, before: seq<Insertion>, id0: nat, ins: Insertion, row: Row)
    requires row == Row(id0 + |before|, ins.year, ins.sortDate, ins.displayDate, ins.title, ins.filePath)
    ensures r0 + Numbered(before + [ins], id0) == (r0 + Numbered(before, id0)) + [row]
  {
    NumberedStep(before, ins, id0);
  }

  /** A path already present, or whose stem does not split in two, adds nothing. */
  lemma NothingNew(s: Scanned, existing: set<string>)
    requires s.filePath in existing || |Split(Stem(BaseOf(s.filePath)), TitleSeparator)| != 2
    ensures NewInsertion(s, existing) == []
  {
  }

  /**
   * The first loop of `populateDatabase`: every scanned path is marked as
   * processed; a path not among the existing ones whose stem splits in two
   * becomes a new row.
   */
  method InsertScanned(t: Table, audio: seq<Scanned>, existingPaths: set<string>) returns (processed: set<string>)
    requires t.Valid()
    modifies t
    ensures t.Valid()
    ensures processed == ProcessedPaths(audio)
    ensures t.rows == old(t.rows) + Numbered(Insertions(audio, existingPaths), old(t.nextId))
    ensures t.nextId == old(t.nextId) + |Insertions(audio, existingPaths)|
    ensures t.disk == old(t.disk)
  {
    processed := {};
    var i := 0;
    while i < |audio|
      invariant 0 <= i <= |audio|
      invariant t.Valid()
      invariant processed == ProcessedPaths(audio[..i])
      invariant t.rows == old(t.rows) + Numbered(Insertions(audio[..i], existingPaths), old(t.nextId))
      invariant t.nextId == old(t.nextId) + |Insertions(audio[..i], existingPaths)|
      invariant t.disk == old(t.disk)
    {
      var s := audio[i];
      InsertionsStep(audio, i, existingPaths);
      ProcessedStep(audio, i);
      processed := processed + {s.filePath};
      InsertIfNew(t, s, existingPaths, old(t.rows), old(t.nextId), Insertions(audio[..i], existingPaths));
      i := i + 1;
    }
    assert audio[..i] == audio;
  }

  lemma ProcessedStep(audio: seq<Scanned>, i: nat)
    requires i < |audio|
    ensures ProcessedPaths(audio[..i + 1]) == ProcessedPaths(audio[..i]) + {audio[i].filePath}
  {
    assert audio[..i + 1] == audio[..i] + [audio[i]];
  }

  /** The ids of the listed rows whose path was not processed. */
  function UnprocessedIds(existing: seq<Row>, processed: set<string>): set<nat> {
    set x | x in existing && x.filePath !in processed :: x.id
  }

  /** The paths of the listed rows whose path was not processed. */
  function UnprocessedPaths(existing: seq<Row>, processed: set<string>): set<string> {
    set x | x in existing && x.filePath !in processed :: x.filePath
  }

  lemma NothingUnprocessedYet(existing: seq<Row>, processed: set<string>)
    ensures UnprocessedIds(existing[..0], processed) == {}
    ensures UnprocessedPaths(existing[..0], processed) == {}
  {
    assert existing[..0] == [];
  }

  lemma UniqueIdsPrefix(r0: seq<Row>, added: seq<Row>)
    requires UniqueIds(r0 + added)
    ensures UniqueIds(r0)
  {
    forall i, j | 0 <= i < j < |r0| ensures r0[i].id != r0[j].id {
      assert (r0 + added)[i] == r0[i] && (r0 + added)[j] == r0[j];
    }
  }

  lemma UnprocessedStep(existing: seq<Row>, j: nat, processed: set<string>)
    requires j < |existing|
    ensures var e := existing[j];
      && UnprocessedIds(existing[..j + 1], processed)
         == UnprocessedIds(existing[..j], processed) + (if e.filePath !in processed then {e.id} else {})
      && UnprocessedPaths(existing[..j + 1], processed)
         == UnprocessedPaths(existing[..j], processed) + (if e.filePath !in processed then {e.filePath} else {})
  {
    assert existing[..j + 1] == existing[..j] + [existing[j]];
  }

  /** A listed row whose id was deleted earlier in the loop had its path unlinked then. */
  lemma AlreadyDeleted(existing: seq<Row>, j: nat, processed: set<string>, r0: seq<Row>)
    requires UniqueIds(r0) && forall x :: x in existing ==> x in r0
    requires j < |existing| && existing[j].id in UnprocessedIds(existing[..j], processed)
    ensures existing[j].filePath in UnprocessedPaths(existing[..j], processed)
  {
    var x :| x in existing[..j] && x.filePath !in processed && x.id == existing[j].id;
    assert x in existing;
    SameIdSameRow(r0, x, existing[j]);
  }

  /**
   * One deletion of the second loop: the `j`-th listed row, whose path was
   * not processed, is deleted by id, with its file. A row deleted earlier
   * in the loop (its file gone with it) leaves the table as it is.
   */
  method DeleteOne(t: Table, existing: seq<Row>, j: nat, processed: set<string>,
                   ghost r0: seq<Row>, ghost added: seq<Row>, ghost bound: nat)
    requires j < |existing| && existing[j].filePath !in processed
    requires UniqueIds(r0) && forall x :: x in existing ==> x in r0
    requires forall x :: x in r0 ==> x.id < bound
    requires forall x :: x in added ==> x.id >= bound
    requires t.Valid() && t.rows == WithoutIds(r0, UnprocessedIds(existing[..j], processed)) + added
    requires t.disk !! UnprocessedPaths(existing[..j], processed)
    modifies t
    ensures t.Valid()
    ensures t.rows == WithoutIds(r0, UnprocessedIds(existing[..j + 1], processed)) + added
    ensures t.disk == old(t.disk) - {existing[j].filePath}
    ensures t.nextId == old(t.nextId)
  {
    var e := existing[j];
    ghost var deleted := UnprocessedIds(existing[..j], processed);
    UnprocessedStep(existing, j, processed);
    if e.id in deleted {
      AlreadyDeleted(existing, j, processed, r0);
      assert deleted + {e.id} == deleted;
      assert t.disk - {e.filePath} == t.disk;
    }
    DeleteStep(r0, added, deleted, e, bound);
    var outcome := t.DeleteById(e.id);
  }

  /** One turn of the second loop: the `j`-th listed row is deleted when its path was not processed. */
  method DeleteIfUnprocessed(t: Table, existing: seq<Row>, j: nat, processed: set<string>,
                             ghost r0: seq<Row>, ghost added: seq<Row>, ghost bound: nat, ghost disk0: set<string>)
    requires j < |existing|
    requires UniqueIds(r0) && forall x :: x in existing ==> x in r0
    requires forall x :: x in r0 ==> x.id < bound
    requires forall x :: x in added ==> x.id >= bound
    requires t.Valid() && t.rows == WithoutIds(r0, UnprocessedIds(existing[..j], processed)) + added
    requires t.disk == disk0 - UnprocessedPaths(existing[..j], processed)
    modifies t
    ensures t.Valid()
    ensures t.rows == WithoutIds(r0, UnprocessedIds(existing[..j + 1], processed)) + added
    ensures t.disk == disk0 - UnprocessedPaths(existing[..j + 1], processed)
    ensures t.nextId == old(t.nextId)
  {
    var entry := existing[j];
    UnprocessedStep(existing, j, processed);
    if entry.filePath !in processed {
      DeleteOne(t, existing, j, processed, r0, added, bound);
    } else {
      assert UnprocessedIds(existing[..j + 1], processed) == UnprocessedIds(existing[..j], processed);
      assert UnprocessedPaths(existing[..j + 1], processed) == UnprocessedPaths(existing[..j], processed);
    }
  }

  /**
   * The second loop of `populateDatabase`: every listed row whose path was
   * not processed is deleted by id, with its file; a failing delete does
   * not stop the loop.
   */
  method DeleteUnprocessed(t: Table, existing: seq<Row>, processed: set<string>,
                           ghost r0: seq<Row>, ghost added: seq<Row>, ghost bound: nat)
    requires t.Valid() && t.rows == r0 + added
    requires forall x :: x in existing ==> x in r0
    requires forall x :: x in r0 ==> x.id < bound
    requires forall x :: x in added ==> x.id >= bound
    modifies t
    ensures t.Valid()
    ensures t.rows == WithoutIds(r0, UnprocessedIds(existing, processed)) + added
    ensures t.disk == old(t.disk) - UnprocessedPaths(existing, processed)
    ensures t.nextId == old(t.nextId)
  {
    UniqueIdsPrefix(r0, added);
    WithoutIdsNone(r0, {});
    NothingUnprocessedYet(existing, processed);
    var j := 0;
    while j < |existing|
      invariant 0 <= j <= |existing|
      invariant t.Valid()
      invariant t.rows == WithoutIds(r0, UnprocessedIds(existing[..j], processed)) + added
      invariant t.disk == old(t.disk) - UnprocessedPaths(existing[..j], processed)
      invariant t.nextId == old(t.nextId)
    {
      DeleteIfUnprocessed(t, existing, j, processed, r0, added, bound, old(t.disk));
      j := j + 1;
    }
    assert existing[..j] == existing;
  }

  /**
   * `populateDatabase`: scan the listing; insert a row for every scanned
   * path not already in the table whose stem splits in two; then delete,
   * with its file, every existing row whose path was not scanned.
   */
  method Populate(t: Table, listing: Option<seq<DirEntry>>)
    requires t.Valid()
    modifies t
    ensures t.Valid()
    ensures listing.None? ==> t.rows == old(t.rows) && t.disk == old(t.disk) && t.nextId == old(t.nextId)
    ensures listing.Some? ==>
      var scanned := ScanAll(listing.value);
      && t.rows == Reconciled(old(t.rows), old(t.nextId), scanned)
      && t.disk == old(t.disk) - Unlinked(old(t.rows), scanned)
      && t.nextId == old(t.nextId) + |Insertions(scanned, PathsOf(old(t.rows)))|
  {
    if listing.None? {
      return;
    }
    var audio := GetAudioFiles(listing.value);
    var existing := t.All();
    ghost var r0 := t.rows;
    ghost var id0 := t.nextId;
    SameElements(existing, r0);
    var existingPaths := set x | x in existing :: x.filePath;
    assert existingPaths == PathsOf(r0);

    var processed := InsertScanned(t, audio, existingPaths);
    ghost var added := Numbered(Insertions(audio, existingPaths), id0);
    forall x | x in added ensures x.id >= id0 {
      NumberedIds(Insertions(audio, existingPaths), id0, x);
    }
    DeleteUnprocessed(t, existing, processed, r0, added, id0);
    UnprocessedSets(existing, r0, processed);
    KeepByIds(r0, r0, processed);
  }

  lemma SameElements(a: seq<Row>, b: seq<Row>)
    requires multiset(a) == multiset(b)
    ensures forall x :: x in a <==> x in b
  {
    forall x ensures x in a <==> x in b {
      assert x in a <==> x in multiset(a);
      assert x in b <==> x in multiset(b);
    }
  }

  /** Over a listing holding the same rows as the table, the deleted ids and paths are those of the unprocessed rows. */
  lemma UnprocessedSets(existing: seq<Row>, r0: seq<Row>, processed: set<string>)
    requires forall x :: x in existing <==> x in r0
    ensures UnprocessedIds(existing, processed) == UnprocessedIds(r0, processed)
    ensures UnprocessedPaths(existing, processed) == UnprocessedPaths(r0, processed)
  {
  }

  /** A path is among the inserted rows exactly when one of the insertions carries it. */
  lemma NumberedPaths(ins: seq<Insertion>, start: nat)
    ensures forall f :: f in PathsOf(Numbered(ins, start)) <==> exists i :: i in ins && i.filePath == f
  {
    var r := Numbered(ins, start);
    NumberedAt(ins, start);
    forall f ensures f in PathsOf(r) <==> exists i :: i in ins && i.filePath == f {
      if f in PathsOf(r) {
        var x :| x in r && x.filePath == f;
        var k :| 0 <= k < |r| && r[k] == x;
        assert ins[k] in ins;
      }
      if exists i :: i in ins && i.filePath == f {
        var i :| i in ins && i.filePath == f;
        var k :| 0 <= k < |ins| && ins[k] == i;
        assert r[k] in r;
      }
    }
  }

  /** The inserted paths are those of the new scanned records whose stem splits in two. */
  lemma InsertedPaths(scanned: seq<Scanned>, existing: set<string>)
    ensures forall f ::
      (exists i :: i in Insertions(scanned, existing) && i.filePath == f)
        <==> (exists s :: s in scanned && s.filePath == f && f !in existing && InsertionOf(s).Some?)
  {
    InsertionsExactly(scanned, existing);
    forall f | exists s :: s in scanned && s.filePath == f && f !in existing && InsertionOf(s).Some?
      ensures exists i :: i in Insertions(scanned, existing) && i.filePath == f
    {
      var s :| s in scanned && s.filePath == f && f !in existing && InsertionOf(s).Some?;
      assert InsertionOf(s).value.filePath == f;
    }
    forall f | exists i :: i in Insertions(scanned, existing) && i.filePath == f
      ensures exists s :: s in scanned && s.filePath == f && f !in existing && InsertionOf(s).Some?
    {
      var i :| i in Insertions(scanned, existing) && i.filePath == f;
      var s := Scanned(i.filePath, i.year);
      assert s in scanned && InsertionOf(s).Some?;
    }
  }

  /**
   * After a pass, a path is in the table exactly when it was there before
   * and was scanned, or it is the path of a new scanned record whose stem
   * splits in two.
   */
  lemma ReconciledPaths(rows: seq<Row>, nextId: nat, scanned: seq<Scanned>)
    ensures forall f :: f in PathsOf(Reconciled(rows, nextId, scanned)) <==>
      || (f in PathsOf(rows) && f in ProcessedPaths(scanned))
      || (exists s :: s in scanned && s.filePath == f && f !in PathsOf(rows) && InsertionOf(s).Some?)
  {
    var p := ProcessedPaths(scanned);
    var ins := Insertions(scanned, PathsOf(rows));
    var kept := KeepProcessed(rows, p);
    var added := Numbered(ins, nextId);
    var all := kept + added;
    NumberedPaths(ins, nextId);
    InsertedPaths(scanned, PathsOf(rows));
    forall f ensures f in PathsOf(all) <==> f in PathsOf(kept) || f in PathsOf(added) {
      if f in PathsOf(all) {
        var x :| x in all && x.filePath == f;
        assert x in kept || x in added;
      }
      if f in PathsOf(kept) {
        var x :| x in kept && x.filePath == f;
        assert x in all;
      }
      if f in PathsOf(added) {
        var x :| x in added && x.filePath == f;
        assert x in all;
      }
    }
    forall f ensures f in PathsOf(kept) <==> f in PathsOf(rows) && f in p {
      if f in PathsOf(rows) && f in p {
        var x :| x in rows && x.filePath == f;
        assert x in kept;
      }
    }
  }

  /** Every scanned path is either in the table already or cannot be inserted. */
  lemma {:induction false} NothingLeftToInsert(scanned: seq<Scanned>, all: seq<Scanned>, rows: seq<Row>)
    requires forall s :: s in scanned ==> s in all
    requires forall s :: s in all ==> s.filePath in PathsOf(rows) || InsertionOf(s).None?
    ensures Insertions(scanned, PathsOf(rows)) == []
  {
    if scanned != [] {
      var init := scanned[..|scanned| - 1];
      assert scanned[|scanned| - 1] in scanned;
      forall s | s in init ensures s in all {
        assert s in scanned;
      }
      NothingLeftToInsert(init, all, rows);
    }
  }

  /**
   * A second pass over the same listing changes nothing: it inserts no
   * row, deletes no row and unlinks no file, whatever id it would hand out next.
   */
  lemma ReconcileIdempotent(rows: seq<Row>, nextId: nat, scanned: seq<Scanned>, laterId: nat)
    ensures Insertions(scanned, PathsOf(Reconciled(rows, nextId, scanned))) == []
    ensures Unlinked(Reconciled(rows, nextId, scanned), scanned) == {}
    ensures Reconciled(Reconciled(rows, nextId, scanned), laterId, scanned) == Reconciled(rows, nextId, scanned)
  {
    var p := ProcessedPaths(scanned);
    var once := Reconciled(rows, nextId, scanned);
    assert forall s :: s in scanned ==> s.filePath in PathsOf(once) || InsertionOf(s).None? by {
      ReconciledPaths(rows, nextId, scanned);
      forall s | s in scanned ensures s.filePath in PathsOf(once) || InsertionOf(s).None? {
        assert s.filePath in p;
      }
    }
    NothingLeftToInsert(scanned, scanned, once);
    assert forall x :: x in once ==> x.filePath in p by {
      ReconciledPaths(rows, nextId, scanned);
      forall x | x in once ensures x.filePath in p {
        assert x.filePath in PathsOf(once);
      }
    }
    KeepAll(once, p);
    assert Unlinked(once, scanned) == {};
    var again := Numbered(Insertions(scanned, PathsOf(once)), laterId);
    assert again == [];
    assert once + again == once;
  }

  lemma {:induction false} KeepAll(rows: seq<Row>, p: set<string>)
    requires forall x :: x in rows ==> x.filePath in p
    ensures KeepProcessed(rows, p) == rows
  {
    if rows != [] {
      assert rows[0] in rows;
      forall x | x in rows[1..] ensures x.filePath in p {
        assert x in rows;
      }
      KeepAll(rows[1..], p);
      assert rows == [rows[0]] + rows[1..];
    }
  }

  /** The name of a recording: six date digits, the separator, a title and `.mp3`. */
  function RecordingName(date: string, title: string): string {
    date + TitleSeparator + title + ".mp3"
  }

  /**
   * A recording named `YYMMDD --- <title>.mp3` (a title is part of one
   * file name, so it holds no `/`) is a candidate, scanned as
   * `db/audio/<name>` with year `20YY`.
   */
  lemma RecordingScanned(date: string, title: string)
    requires |date| == 6 && AllDigits(date)
    requires '/' !in title
    ensures IsCandidate(DirEntry(RecordingName(date, title), true))
    ensures ScanOf(DirEntry(RecordingName(date, title), true)) == Scanned("db/audio/" + RecordingName(date, title), "20" + date[..2])
  {
    var name := RecordingName(date, title);
    assert IsName(name) && name[..6] == date && Extname(name) == ".mp3" by {
      RecordingNameShape(date, title);
    }
    assert IsCandidate(DirEntry(name, true)) by {
      LowerMp3();
    }
    assert ScanPath(name) == "db/audio/" + name by {
      ScanPathOfName(name);
    }
  }

  /**
   * The scanned record of such a recording yields the row with year
   * `20YY`, the sort and display dates of `YYMMDD`, and the title, unless
   * the title itself holds `" --- "`: then the stem splits in more than
   * two and no row is inserted.
   */
  lemma RecordingInsertion(date: string, title: string)
    requires |date| == 6 && AllDigits(date)
    requires '/' !in title
    ensures var path := "db/audio/" + RecordingName(date, title);
      InsertionOf(Scanned(path, "20" + date[..2]))
      == (if Includes(title, TitleSeparator) then None
          else Some(Insertion("20" + date[..2], SortDate(date), DisplayDate(date), title, path)))
  {
    var name := RecordingName(date, title);
    RecordingNameShape(date, title);
    assert BaseOf("db/audio/" + name) == name by {
      AudioPathOfName(name);
      BaseOfAudioPath(name);
    }
    RecordingStemSplits(date, title);
  }

  /** The name is one path segment with extension `.mp3`, its stem drops the extension, and it starts with the date. */
  lemma RecordingNameShape(date: string, title: string)
    requires |date| == 6 && AllDigits(date)
    requires '/' !in title
    ensures var name := RecordingName(date, title);
      && IsName(name) && name[..6] == date
      && Extname(name) == ".mp3" && Stem(name) == date + TitleSeparator + title
  {
    var stem := date + TitleSeparator + title;
    var name := RecordingName(date, title);
    assert name == stem + ['.'] + "mp3";
    LastDot(stem, "mp3");
    assert name[..6] == date;
    assert '/' !in TitleSeparator;
    forall i | 0 <= i < |name| ensures name[i] != '/' {
      if i < 6 {
        assert name[i] == date[i];
      } else if i < 11 {
        assert name[i] == TitleSeparator[i - 6];
      } else if i < 11 + |title| {
        assert name[i] == title[i - 11];
      }
    }
  }

  /** The stem cuts off the date first and then splits the title; a title without the separator stays whole. */
  lemma RecordingStemSplits(date: string, title: string)
    requires |date| == 6 && AllDigits(date)
    ensures Split(date + TitleSeparator + title, TitleSeparator) == [date] + Split(title, TitleSeparator)
    ensures !Includes(title, TitleSeparator) <==> Split(date + TitleSeparator + title, TitleSeparator) == [date, title]
  {
    var stem := date + TitleSeparator + title;
    forall j | 0 <= j < |date| ensures !OccursAt(stem, TitleSeparator, j) {
      assert stem[j] == date[j];
      assert IsDigit(stem[j]);
    }
    SplitCons(date, TitleSeparator, title);
  }

  /** A name whose last dot precedes the extension. */
  lemma LastDot(stem: string, ext: string)
    requires '.' !in ext && stem != []
    ensures LastIndexOf(stem + ['.'] + ext, '.') == Some(|stem|)
  {
    LastIndexAfter(stem + ['.'], ext, '.');
  }

  /** The last occurrence of `c` is the one ending `p` when none follows. */
  lemma {:induction false} LastIndexAfter(p: string, q: string, c: char)
    requires p != [] && p[|p| - 1] == c && c !in q
    ensures LastIndexOf(p + q, c) == Some(|p| - 1)
  {
    if q == [] {
      assert p + q == p;
    } else {
      var init := q[..|q| - 1];
      assert (p + q)[..|p + q| - 1] == p + init;
      assert (p + q)[|p + q| - 1] == q[|q| - 1];
      LastIndexAfter(p, init, c);
    }
  }

  lemma LowerMp3()
    ensures AsciiLower(".mp3") == ".mp3"
  {
    var s := ".mp3";
    assert forall i :: 0 <= i < |s| ==> !('A' <= s[i] <= 'Z');
  }

  /**
   * A pass that scans one record whose stem splits in two, on a table with
   * no rows, leaves exactly that record's row, with the next id, and
   * unlinks nothing.
   */
  lemma SingleScanned(s: Scanned, nextId: nat, ins: Insertion)
    requires InsertionOf(s) == Some(ins)
    ensures Reconciled([], nextId, [s])
      == [Row(nextId, ins.year, ins.sortDate, ins.displayDate, ins.title, ins.filePath)]
    ensures Unlinked([], [s]) == {}
  {
    EmptyTableReconciled(nextId, [s]);
    assert Insertions([s], {}) == [ins] by {
      InsertionsOne(s, {});
    }
    NumberedOne(ins, nextId);
  }

  /** On a table with no rows a pass keeps nothing, inserts what is new against no paths, and unlinks nothing. */
  lemma EmptyTableReconciled(nextId: nat, scanned: seq<Scanned>)
    ensures Reconciled([], nextId, scanned) == Numbered(Insertions(scanned, {}), nextId)
    ensures Unlinked([], scanned) == {}
  {
    assert PathsOf([]) == {};
  }

  lemma InsertionsOne(s: Scanned, existing: set<string>)
    ensures Insertions([s], existing) == NewInsertion(s, existing)
  {
    assert [s][..0] == [];
  }

  lemma NumberedOne(ins: Insertion, start: nat)
    ensures Numbered([ins], start) == [Row(start, ins.year, ins.sortDate, ins.displayDate, ins.title, ins.filePath)]
  {
    assert [ins][..0] == [];
  }

  /** A directory holding one candidate scans to that candidate's record alone. */
  lemma ScanOne(e: DirEntry)
    requires IsCandidate(e)
    ensures ScanAll([e]) == [ScanOf(e)]
  {
    assert [e][..0] == [];
  }

  /**
   * A pass over a directory holding only such a recording, on a table with
   * no rows, leaves exactly its row, with the next id, or no row at all
   * when the title holds `" --- "`; it unlinks nothing.
   */
  lemma RecordingScenario(date: string, title: string, nextId: nat)
    requires |date| == 6 && AllDigits(date)
    requires '/' !in title
    ensures var e := DirEntry(RecordingName(date, title), true);
      && Reconciled([], nextId, ScanAll([e]))
         == (if Includes(title, TitleSeparator) then []
             else [Row(nextId, "20" + date[..2], SortDate(date), DisplayDate(date), title, "db/audio/" + e.name)])
      && Unlinked([], ScanAll([e])) == {}
  {
    var e := DirEntry(RecordingName(date, title), true);
    RecordingScanned(date, title);
    RecordingInsertion(date, title);
    ScanOne(e);
    if Includes(title, TitleSeparator) {
      NothingScanned(ScanOf(e), nextId);
    } else {
      var ins := Insertion("20" + date[..2], SortDate(date), DisplayDate(date), title, "db/audio/" + e.name);
      SingleScanned(ScanOf(e), nextId, ins);
    }
  }

  /** A pass that scans one record whose stem does not split in two, on a table with no rows, leaves no row and unlinks nothing. */
  lemma NothingScanned(s: Scanned, nextId: nat)
    requires InsertionOf(s).None?
    ensures Reconciled([], nextId, [s]) == []
    ensures Unlinked([], [s]) == {}
  {
    EmptyTableReconciled(nextId, [s]);
    assert Insertions([s], {}) == [] by {
      InsertionsOne(s, {});
    }
  }

  /** The sort date of the worked example `250101 --- Opening Set.mp3` is 2025-01-01, and its year 2025. */
  lemma OpeningSetSortDate()
    ensures "20" + "250101"[..2] == "2025"
    ensures SortDate("250101") == "2025-01-01"
  {
    var d := "250101";
    assert d[0..2] == "25" && d[2..4] == "01" && d[4..6] == "01";
    var r := SortDate(d);
    assert |r| == 10;
    assert r[0] == '2' && r[1] == '0' && r[2] == '2' && r[3] == '5' && r[4] == '-';
    assert r[5] == '0' && r[6] == '1' && r[7] == '-' && r[8] == '0' && r[9] == '1';
  }
}
