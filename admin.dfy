/**
 * The server actions of the admin page that touch the catalogue: uploading
 * an audio file (stored under `db/audio`, with a row when its stem names a
 * date and a title), retitling and deleting a row. The date helpers the
 * page carries are the ones of the `Dates` module.
 */
module Admin {
  import opened Wrappers
  import opened JsStrings
  import opened Paths
  import opened Dates
  import opened Catalogue
  import opened Reconcile

  /** What `uploadFile` answers: `fail(status, {error, message})`, `{success}` or `{success, message, filePath}`. */
  datatype UploadResult =
    | Failed(status: nat, message: string)
    | Created
    | Stored(message: string, filePath: string)

  const MissingFileMessage: string := "You must provide a file to upload"
  const WriteFailedMessage: string := "Failed to upload file due to server error"
  const UploadedMessage: string := "File uploaded successfully!"

  /** The form's file is usable unless its name is absent, empty or the text `undefined`. */
  predicate HasFileName(fileName: Option<string>) {
    fileName.Some? && fileName.value != "" && fileName.value != "undefined"
  }

  /**
   * The row an upload of `name` creates, if any: the stem of the stored
   * path must split in two on `" --- "`; the year is `"20"` and the stem's
   * first two characters, whatever they are.
   */
  function UploadInsertion(name: string): (r: Option<Insertion>)
    ensures r.Some? ==> r.value.filePath == AudioPath(name)
  {
    var filePath := AudioPath(name);
    var fileName := Stem(BaseOf(filePath));
    var data := Split(fileName, TitleSeparator);
    if |data| == 2 then
      Some(Insertion("20" + Substring(fileName, 0, 2), SortDate(data[0]), DisplayDate(data[0]), data[1], filePath))
    else None
  }

  /**
   * `uploadFile`. A missing name fails with 400 and touches nothing. A
   * failing write (the outcome of `writeFileSync`, given as `writeSucceeds`)
   * fails with 500 and adds no row. Otherwise the file is stored at
   * `db/audio/<name>` and, when the stem splits in two, one row is created.
   */
  method UploadFile(t: Table, fileName: Option<string>, writeSucceeds: bool) returns (r: UploadResult)
    requires t.Valid()
    modifies t
    ensures t.Valid()
    ensures !HasFileName(fileName) ==> r == Failed(400, MissingFileMessage) && unchanged(t)
    ensures HasFileName(fileName) && !writeSucceeds ==> r == Failed(500, WriteFailedMessage) && unchanged(t)
    ensures HasFileName(fileName) && writeSucceeds ==>
      var name := fileName.value;
      && t.disk == old(t.disk) + {AudioPath(name)}
      && t.nextId == old(t.nextId) + (if UploadInsertion(name).Some? then 1 else 0)
      && match UploadInsertion(name)
         case Some(i) =>
           && r == Created
           && t.rows == old(t.rows) + [Row(old(t.nextId), i.year, i.sortDate, i.displayDate, i.title, i.filePath)]
         case None =>
           && r == Stored(UploadedMessage, AudioPath(name))
           && t.rows == old(t.rows)
  {
    if !HasFileName(fileName) {
      return Failed(400, MissingFileMessage);
    }
    var name := fileName.value;
    var filePath := AudioPath(name);
    if !writeSucceeds {
      return Failed(500, WriteFailedMessage);
    }
    t.disk := t.disk + {filePath};
    var stem := Stem(BaseOf(filePath));
    var data := Split(stem, TitleSeparator);
    var year := "20" + Substring(stem, 0, 2);
    if |data| == 2 {
      var rawDate, title := data[0], data[1];
      var displayDate := DisplayDate(rawDate);
      var sortDate := SortDate(rawDate);
      var row := t.Create(year, sortDate, displayDate, title, filePath);
      return Created;
    }
    return Stored(UploadedMessage, filePath);
  }

  /** A name that ends in an extension after six digits keeps those digits in its stem. */
  lemma StemKeepsDigits(name: string)
    requires |name| >= 6 && Decimal.AllDigits(name[..6]) && Extname(name) != ""
    ensures |Stem(name)| >= 6 && Stem(name)[..2] == name[..2]
  {
    var k := ExtStart(name).value;
    assert name[k] == '.';
    forall i | 0 <= i < 6 ensures name[i] != '.' {
      assert Decimal.IsDigit(name[..6][i]);
    }
  }

  /**
   * Uploading a file the reconciliation would pick up creates the very row
   * the reconciliation would insert for it: the same path, year, dates and
   * title. So a later pass finds its path among the existing ones.
   */
  lemma UploadMatchesScan(name: string)
    requires IsName(name) && IsCandidate(DirEntry(name, true))
    ensures UploadInsertion(name) == InsertionOf(ScanOf(DirEntry(name, true)))
  {
    var s := ScanOf(DirEntry(name, true));
    ScanPathOfName(name);
    AudioPathOfName(name);
    assert s.filePath == AudioPath(name);
    BaseOfAudioPath(name);
    StemKeepsDigits(name);
    var stem := Stem(name);
    assert Substring(stem, 0, 2) == stem[..2];
    assert s.year == "20" + Substring(stem, 0, 2);
  }

  /** `editEntry`: retitles the rows with that id and reports success. */
  method EditEntry(t: Table, id: nat, title: string) returns (success: bool)
    requires t.Valid()
    modifies t
    ensures t.Valid()
    ensures success
    ensures t.rows == Retitled(old(t.rows), id, title)
    ensures t.disk == old(t.disk) && t.nextId == old(t.nextId)
  {
    t.EditTitle(id, title);
    success := true;
  }

  /**
   * `deleteEntry`: deletes the row with that id, with its file, and
   * reports success even when `deleteEntryById` found no such row or
   * could not unlink the file.
   */
  method DeleteEntry(t: Table, id: nat) returns (success: bool)
    requires t.Valid()
    modifies t
    ensures t.Valid()
    ensures success
    ensures Lookup(old(t.rows), id).None? ==> t.rows == old(t.rows) && t.disk == old(t.disk)
    ensures Lookup(old(t.rows), id).Some? ==>
      && t.rows == WithoutIds(old(t.rows), {id})
      && t.disk == old(t.disk) - {Lookup(old(t.rows), id).value.filePath}
  {
    var outcome := t.DeleteById(id);
    success := true;
  }
}
