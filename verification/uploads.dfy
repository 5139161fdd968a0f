/** The file rules of backend/app.py: which names may be uploaded, which
    media type a name gets, the upload route's checks, and the scan of the
    upload folder that records every new file once. */
module Uploads {
  import opened Common
  import opened Text
  import opened MarkupStore

  /** ALLOWED_EXTENSIONS. */
  const AllowedExtensions: set<string> := {"png", "jpg", "jpeg", "gif", "bmp", "mp4", "avi", "mov"}

  /** The extensions the upload and scan routes record as video. */
  const VideoExtensions: set<string> := {"mp4", "avi", "mov"}

  /** UPLOAD_FOLDER. */
  const UploadFolder: string := "uploads"

  /** The lower-cased text after the last '.' (the whole name when it has none). */
  function Extension(filename: string): string {
    ToLower(AfterLastDot(filename))
  }

  /** `allowed_file`: the name has a '.' and the lower-cased text after
      its last '.' is an allowed extension. */
  function AllowedFile(filename: string): (ok: bool)
    ensures ok ==> '.' in filename && |Extension(filename)| >= 3
    ensures ok <==> '.' in filename && ToLower(filename[LastDot(filename) + 1..]) in AllowedExtensions
  {
    if '.' in filename then
      assert filename[LastDot(filename) + 1..] == AfterLastDot(filename);
      Extension(filename) in AllowedExtensions
    else false
  }

  /** Whatever '.' one reads as the last one, `allowed_file` judges the
      lower-cased text after it. */
  lemma AllowedFileAtDot(filename: string, k: nat)
    requires k < |filename| && filename[k] == '.'
    requires '.' !in filename[k + 1..]
    ensures AllowedFile(filename) <==> ToLower(filename[k + 1..]) in AllowedExtensions
  {
    var e := filename[k + 1..];
    assert filename[|filename| - |e|..] == e;
    AfterLastDotUnique(filename, e);
  }

  /** A name without a '.' is never allowed, whatever it ends with. */
  lemma NoDotNotAllowed(filename: string)
    requires '.' !in filename
    ensures !AllowedFile(filename)
  {
  }

  /** The media type the upload and scan routes derive from a name. */
  function MediaTypeFor(filename: string): (t: MediaType)
    ensures t == Video <==> Extension(filename) in VideoExtensions
  {
    if Extension(filename) in VideoExtensions then Video else Image
  }

  /** The test ignores case... */
  lemma UpperCaseVideo()
    ensures MediaTypeFor("clip.MOV") == Video
  {
    assert AfterLastDot("clip.MOV") == "MOV" by {
      AfterLastDotUnique("clip.MOV", "MOV");
    }
    assert ToLower("MOV") == "mov";
  }

  /** ...and looks at the text after the last dot only. */
  lemma OnlyLastExtensionCounts()
    ensures MediaTypeFor("mov.png") == Image
  {
    assert AfterLastDot("mov.png") == "png" by {
      AfterLastDotUnique("mov.png", "png");
    }
    assert ToLower("png") == "png";
  }

  /** The stored filepath, `os.path.join(UPLOAD_FOLDER, filename)`. */
  function UploadPath(filename: string): string {
    UploadFolder + "/" + filename
  }

  // ---------------------------------------------------------------------------
  // Upload route

  datatype UploadError = NoFileProvided | NoFileSelected | FileTypeNotAllowed

  datatype UploadResponse = UploadRejected(error: UploadError) | UploadCreated(media: Row)

  datatype Uploaded = Uploaded(store: Store, response: UploadResponse)

  /** `upload_media`: `file` is the uploaded file's name, None when the
      request has no file part; `secure` stands for `secure_filename`. The
      checks run on the name as sent, the record is made from the secured name. */
  function UploadMedia(s: Store, file: Option<string>, secure: string -> string): (u: Uploaded)
    requires Valid(s)
    ensures Valid(u.store)
    ensures file.None? ==> u == Uploaded(s, UploadRejected(NoFileProvided))
    ensures file == Some("") ==> u == Uploaded(s, UploadRejected(NoFileSelected))
    ensures u.response.UploadCreated? <==> file.Some? && file.value != "" && AllowedFile(file.value)
    ensures u.response.UploadRejected? ==> u.store == s
    ensures u.response.UploadCreated? ==>
      var name, row := secure(file.value), u.response.media;
      && row.id !in s.rows
      && u.store.rows == s.rows[row.id := row.item]
      && row.item.filename == name
      && row.item.filepath == UploadPath(name)
      && row.item.mediaType == MediaTypeFor(name)
      && row.item.title == (if SplitextRoot(name) != "" then SplitextRoot(name) else name)
      && StatusOf(row.item) == Pending
  {
    if file.None? then Uploaded(s, UploadRejected(NoFileProvided))
    else if file.value == "" then Uploaded(s, UploadRejected(NoFileSelected))
    else if !AllowedFile(file.value) then Uploaded(s, UploadRejected(FileTypeNotAllowed))
    else
      var name := secure(file.value);
      var c := Create(s, name, UploadPath(name), MediaTypeFor(name), Some(SplitextRoot(name)));
      Uploaded(c.store, UploadCreated(c.row))
  }

  /** For a name that `secure_filename` keeps as it is and that does not
      start with '.', uploading a file makes the very record a scan of the
      folder would make for it. */
  lemma UploadMatchesScan(s: Store, name: string, secure: string -> string)
    requires Valid(s) && AllowedFile(name) && secure(name) == name && name[0] != '.'
    ensures var u := UploadMedia(s, Some(name), secure);
      && u.response.UploadCreated?
      && ScannedRecord(name, u.response.media.item)
      && (ScanEntry(s, DirEntry(name, true)).files != [] ==>
            ScanEntry(s, DirEntry(name, true)).files[0] == u.response.media)
  {
    DottedRootNonEmpty(name);
  }

  // ---------------------------------------------------------------------------
  // Folder scan

  /** One name listed in the upload folder and whether it is a regular file. */
  datatype DirEntry = DirEntry(name: string, isFile: bool)

  /** The entries the scan considers: not hidden, a file, an allowed name. */
  predicate Scannable(e: DirEntry) {
    !(|e.name| > 0 && e.name[0] == '.') && e.isFile && AllowedFile(e.name)
  }

  /** Filenames already recorded. */
  ghost function Names(s: Store): set<string> {
    set id | id in s.rows :: s.rows[id].filename
  }

  /** The names of the entries `p` selects. */
  ghost function SelectedNames(entries: seq<DirEntry>, p: DirEntry -> bool): set<string> {
    set i | 0 <= i < |entries| && p(entries[i]) :: entries[i].name
  }

  ghost function ScannableNames(entries: seq<DirEntry>): set<string> {
    SelectedNames(entries, Scannable)
  }

  /** The names a scan of `entries` should add to `s`. */
  ghost function NewNames(s: Store, entries: seq<DirEntry>): set<string> {
    ScannableNames(entries) - Names(s)
  }

  /** No filename is recorded twice. */
  ghost predicate UniqueFilenames(s: Store) {
    forall i, j :: i in s.rows && j in s.rows && s.rows[i].filename == s.rows[j].filename ==> i == j
  }

  /** The record the scan makes for a new file. */
  ghost predicate ScannedRecord(name: string, m: Markup) {
    && m.filename == name
    && m.filepath == UploadPath(name)
    && m.mediaType == MediaTypeFor(name)
    && m.title == SplitextRoot(name)
    && StatusOf(m) == Pending
  }

  datatype Scanned = Scanned(store: Store, files: seq<Row>)

  /** One turn of the scan loop: a scannable entry whose filename is not
      stored yet becomes a new pending record; any other entry changes nothing. */
  function ScanEntry(s: Store, e: DirEntry): (r: Scanned)
    requires Valid(s)
    ensures Valid(r.store)
    ensures r.files != [] <==> Scannable(e) && e.name !in Names(s)
    ensures r.files == [] ==> r.store == s
    ensures r.files != [] ==>
      && r.files == [Row(s.nextId, r.files[0].item)]
      && r.store == Store(s.rows[s.nextId := r.files[0].item], s.nextId + 1)
      && ScannedRecord(e.name, r.files[0].item)
    ensures Names(r.store) == Names(s) + (if Scannable(e) then {e.name} else {})
  {
    if Scannable(e) && GetByFilename(s, e.name).None? then
      var c := Create(s, e.name, UploadPath(e.name), MediaTypeFor(e.name), Some(SplitextRoot(e.name)));
      NamesAfterInsert(s, c.store, c.row);
      DottedRootNonEmpty(e.name);
      assert e.name !in Names(s);
      Scanned(c.store, [c.row])
    else
      assert Scannable(e) ==> e.name in Names(s) by {
        if Scannable(e) {
          var row := GetByFilename(s, e.name).value;
          assert s.rows[row.id].filename == e.name;
        }
      }
      Scanned(s, [])
  }

  /** `scan_upload_folder`: walks the listing in order, records each
      scannable entry whose filename is not stored yet, and leaves every
      stored record as it was. */
  function Scan(s: Store, entries: seq<DirEntry>): (r: Scanned)
    requires Valid(s)
    ensures Valid(r.store)
    ensures r.store.nextId == s.nextId + |r.files|
    ensures forall id :: id in s.rows ==> id in r.store.rows && r.store.rows[id] == s.rows[id]
    decreases |entries|
  {
    if entries == [] then Scanned(s, [])
    else
      var first := ScanEntry(s, entries[0]);
      var r := Scan(first.store, entries[1..]);
      Scanned(r.store, first.files + r.files)
  }

  /** After a scan, the stored filenames are the old ones plus every
      scannable name of the listing. */
  lemma {:induction false} ScanRecordsEveryFile(s: Store, entries: seq<DirEntry>)
    requires Valid(s)
    ensures Names(Scan(s, entries).store) == Names(s) + ScannableNames(entries)
    decreases |entries|
  {
    if entries == [] {
      assert ScannableNames(entries) == {};
    } else {
      ScannableNamesCons(entries);
      ScanRecordsEveryFile(ScanEntry(s, entries[0]).store, entries[1..]);
    }
  }

  /** The scan creates exactly one record per scannable name not already
      stored: the "Found N new files" count. */
  lemma {:induction false} ScanCountsNewNames(s: Store, entries: seq<DirEntry>)
    requires Valid(s)
    ensures |Scan(s, entries).files| == |NewNames(s, entries)|
    decreases |entries|
  {
    if entries == [] {
      assert ScannableNames(entries) == {};
    } else {
      ScanStep(s, entries);
      ScanCountsNewNames(ScanEntry(s, entries[0]).store, entries[1..]);
    }
  }

  /** A record the scan reports for `entries` on top of `s`. */
  ghost predicate NewFile(s: Store, entries: seq<DirEntry>, after: Store, row: Row) {
    && row.id !in s.rows
    && row.id in after.rows && after.rows[row.id] == row.item
    && row.item.filename in NewNames(s, entries)
    && ScannedRecord(row.item.filename, row.item)
  }

  /** Each record the scan reports is a new, stored, pending record for one
      of the names it should add. */
  lemma {:induction false} ScanFilesAreNew(s: Store, entries: seq<DirEntry>)
    requires Valid(s)
    ensures forall row :: row in Scan(s, entries).files ==> NewFile(s, entries, Scan(s, entries).store, row)
    decreases |entries|
  {
    if entries != [] {
      var first := ScanEntry(s, entries[0]);
      var r' := Scan(first.store, entries[1..]);
      var r := Scan(s, entries);
      assert r.files == first.files + r'.files;
      ScanFilesAreNew(first.store, entries[1..]);
      forall row | row in r.files
        ensures NewFile(s, entries, r.store, row)
      {
        if row in first.files {
          FirstFileIsNew(s, entries);
        } else {
          LaterFileIsNew(s, entries, row);
        }
      }
    }
  }

  lemma FirstFileIsNew(s: Store, entries: seq<DirEntry>)
    requires Valid(s) && entries != []
    requires ScanEntry(s, entries[0]).files != []
    ensures NewFile(s, entries, Scan(s, entries).store, ScanEntry(s, entries[0]).files[0])
  {
    ScanStep(s, entries);
  }

  lemma LaterFileIsNew(s: Store, entries: seq<DirEntry>, row: Row)
    requires Valid(s) && entries != []
    requires var first := ScanEntry(s, entries[0]);
      NewFile(first.store, entries[1..], Scan(first.store, entries[1..]).store, row)
    ensures NewFile(s, entries, Scan(s, entries).store, row)
  {
    ScanStep(s, entries);
  }

  /** How the first entry splits a scan: its record (if any) comes first,
      and the names still to add are its name plus those of the rest. */
  lemma ScanStep(s: Store, entries: seq<DirEntry>)
    requires Valid(s) && entries != []
    ensures var first := ScanEntry(s, entries[0]);
      var r' := Scan(first.store, entries[1..]);
      && Scan(s, entries) == Scanned(r'.store, first.files + r'.files)
      && |NewNames(s, entries)| == |first.files| + |NewNames(first.store, entries[1..])|
      && NewNames(first.store, entries[1..]) <= NewNames(s, entries)
      && (first.files != [] ==> first.files[0].item.filename in NewNames(s, entries))
  {
    var e := entries[0];
    var first := ScanEntry(s, e);
    var add := if Scannable(e) then {e.name} else {};
    NewNamesOfEntries(s, entries);
    NewNamesAfterEntry(s, entries);
    FirstEntryCount(s, e);
    NewNamesSplit(ScannableNames(entries[1..]), Names(s), add);
  }

  lemma NewNamesOfEntries(s: Store, entries: seq<DirEntry>)
    requires entries != []
    ensures NewNames(s, entries)
         == ((if Scannable(entries[0]) then {entries[0].name} else {}) + ScannableNames(entries[1..])) - Names(s)
  {
    ScannableNamesCons(entries);
  }

  lemma NewNamesAfterEntry(s: Store, entries: seq<DirEntry>)
    requires Valid(s) && entries != []
    ensures NewNames(ScanEntry(s, entries[0]).store, entries[1..])
         == ScannableNames(entries[1..]) - (Names(s) + (if Scannable(entries[0]) then {entries[0].name} else {}))
  {
  }

  lemma FirstEntryCount(s: Store, e: DirEntry)
    requires Valid(s)
    ensures var first := ScanEntry(s, e);
      var add := if Scannable(e) then {e.name} else {};
      && |add - Names(s)| == |first.files|
      && (first.files != [] ==> first.files[0].item.filename in add - Names(s))
  {
    var first := ScanEntry(s, e);
    var add := if Scannable(e) then {e.name} else {};
    if first.files != [] {
      assert add - Names(s) == {e.name};
    } else {
      assert add - Names(s) == {};
    }
  }

  /** Set algebra behind one step of the scan: the names still to add are
      those of the first entry plus those of the rest not yet known. */
  lemma NewNamesSplit<X>(rest: set<X>, names: set<X>, add: set<X>)
    ensures (add + rest) - names == (add - names) + (rest - (names + add))
    ensures (add - names) !! (rest - (names + add))
    ensures |(add + rest) - names| == |add - names| + |rest - (names + add)|
    ensures rest - (names + add) <= (add + rest) - names
  {
  }

  lemma ScannableNamesCons(entries: seq<DirEntry>)
    requires entries != []
    ensures ScannableNames(entries)
         == (if Scannable(entries[0]) then {entries[0].name} else {}) + ScannableNames(entries[1..])
  {
    SelectedNamesCons(entries, Scannable);
  }

  /** The selected names split at the first entry. */
  lemma SelectedNamesCons(entries: seq<DirEntry>, p: DirEntry -> bool)
    requires entries != []
    ensures SelectedNames(entries, p)
         == (if p(entries[0]) then {entries[0].name} else {}) + SelectedNames(entries[1..], p)
  {
    var rest := entries[1..];
    forall n | n in SelectedNames(entries, p)
      ensures n in (if p(entries[0]) then {entries[0].name} else {}) + SelectedNames(rest, p)
    {
      var i :| 0 <= i < |entries| && p(entries[i]) && entries[i].name == n;
      if i > 0 {
        assert rest[i - 1] == entries[i];
      }
    }
    forall n | n in SelectedNames(rest, p)
      ensures n in SelectedNames(entries, p)
    {
      var i :| 0 <= i < |rest| && p(rest[i]) && rest[i].name == n;
      assert entries[i + 1] == rest[i];
    }
  }

  lemma NamesAfterInsert(s: Store, t: Store, row: Row)
    requires row.id !in s.rows && t.rows == s.rows[row.id := row.item]
    ensures Names(t) == Names(s) + {row.item.filename}
  {
    forall n | n in Names(t)
      ensures n in Names(s) + {row.item.filename}
    {
      var id :| id in t.rows && t.rows[id].filename == n;
      if id != row.id {
        assert s.rows[id].filename == n;
      }
    }
    forall n | n in Names(s)
      ensures n in Names(t)
    {
      var id :| id in s.rows && s.rows[id].filename == n;
      assert t.rows[id].filename == n;
    }
    assert row.item.filename == t.rows[row.id].filename;
  }

  /** A scannable name does not start with '.', so the title the scan gives
      it is non-empty and is kept rather than replaced by the filename. */
  lemma DottedRootNonEmpty(name: string)
    requires !(|name| > 0 && name[0] == '.') && AllowedFile(name)
    ensures SplitextRoot(name) != ""
  {
    assert name[0] != '.';
    var d := LastDot(name);
    assert d > 0;
  }

  /** Scanning never records a filename twice: if every filename was unique
      before, every filename is unique after. */
  lemma {:induction false} ScanKeepsFilenamesUnique(s: Store, entries: seq<DirEntry>)
    requires Valid(s) && UniqueFilenames(s)
    ensures UniqueFilenames(Scan(s, entries).store)
    decreases |entries|
  {
    if entries != [] {
      var first := ScanEntry(s, entries[0]);
      ScanEntryKeepsFilenamesUnique(s, entries[0]);
      ScanKeepsFilenamesUnique(first.store, entries[1..]);
    }
  }

  /** One entry's step of the scan keeps the filenames unique. */
  lemma ScanEntryKeepsFilenamesUnique(s: Store, e: DirEntry)
    requires Valid(s) && UniqueFilenames(s)
    ensures UniqueFilenames(ScanEntry(s, e).store)
  {
    var first := ScanEntry(s, e);
    if first.files != [] {
      var row := first.files[0];
      forall i | i in s.rows
        ensures s.rows[i].filename != row.item.filename
      {
        assert s.rows[i].filename in Names(s);
      }
    }
  }

  /** A scan that reports no file leaves the table as it was. */
  lemma {:induction false} ScanUnchangedWhenNothingFound(s: Store, entries: seq<DirEntry>)
    requires Valid(s)
    ensures Scan(s, entries).files == [] ==> Scan(s, entries).store == s
    decreases |entries|
  {
    if entries != [] {
      var first := ScanEntry(s, entries[0]);
      ScanUnchangedWhenNothingFound(first.store, entries[1..]);
    }
  }

  /** Scanning the same listing a second time finds nothing new. */
  lemma ScanTwiceFindsNothing(s: Store, entries: seq<DirEntry>)
    requires Valid(s)
    ensures Scan(Scan(s, entries).store, entries).files == []
  {
    var r := Scan(s, entries);
    ScanRecordsEveryFile(s, entries);
    ScanCountsNewNames(r.store, entries);
    assert NewNames(r.store, entries) == {};
  }
}
