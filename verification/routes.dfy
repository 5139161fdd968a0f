/** The remaining routes of backend/app.py that decide something: the query
    argument handling of `/api/next` and `/api/prev`, the reset and scan
    responses, and the CSV export with its own "annotated" count. */
module Routes {
  import opened Common
  import opened Text
  import opened MarkupStore
  import Tables
  import Uploads

  // ---------------------------------------------------------------------------
  // Traversal routes

  /** `request.args.get("current_id", type=int, default=0)` sees the argument
      missing, present but not an integer, or an integer. */
  datatype QueryArg = Absent | NotAnInt | IntArg(n: int)

  /** The value the route works with: a missing argument and one `int()`
      cannot convert both fall back to the default 0. */
  function CurrentId(q: QueryArg): (c: int)
    ensures q.IntArg? ==> c == q.n
    ensures !q.IntArg? ==> c == 0
  {
    match q
    case IntArg(n) => n
    case _ => 0
  }

  datatype NextResponse = NextMedia(media: Row) | NoMoreMedia

  /** `/api/next`: the first pending record after `current_id`, which
      defaults to 0 (the beginning). */
  function GetNextMedia(s: Store, q: QueryArg): (r: NextResponse)
    requires Valid(s)
    ensures r.NextMedia? ==> StatusOf(r.media.item) == Pending && r.media.id in s.rows
    ensures r.NextMedia? ==> r.media.item == s.rows[r.media.id]
    ensures r.NextMedia? ==> r.media.id > CurrentId(q)
    ensures r.NextMedia? ==>
      forall id :: CurrentId(q) < id < r.media.id && id in s.rows ==> StatusOf(s.rows[id]) == Completed
    ensures r.NoMoreMedia? <==>
      forall id :: id in s.rows && id > CurrentId(q) ==> StatusOf(s.rows[id]) == Completed
  {
    match NextUnannotated(s, CurrentId(q))
    case Some(row) => NextMedia(row)
    case None => NoMoreMedia
  }

  /** Without a usable `current_id`, or with one at most 0, `/api/next`
      starts from the first pending record of the table. */
  lemma NextDefaultsToStart(s: Store, q: QueryArg)
    requires Valid(s) && CurrentId(q) <= 0
    ensures GetNextMedia(s, q).NextMedia? <==> PendingIds(s) != {}
    ensures GetNextMedia(s, q).NextMedia? ==>
      forall id :: id in PendingIds(s) ==> GetNextMedia(s, q).media.id <= id
  {
    var r := GetNextMedia(s, q);
    if r.NoMoreMedia? {
      assert forall id :: id in s.rows ==> id > 0;
      assert forall id :: id !in PendingIds(s);
    } else {
      assert r.media.id in PendingIds(s);
      forall id | id in PendingIds(s)
        ensures r.media.id <= id
      {
        assert id in s.rows && id > 0;
      }
    }
  }

  /** The search never wraps around: past the last pending record the
      route answers "no more", though an earlier record is still pending. */
  lemma NoWrapAround()
    ensures
      var pending := Markup("a.jpg", "uploads/a.jpg", Image, None, None, None, "a");
      var done := Markup("b.jpg", "uploads/b.jpg", Image, Some(Happy), Some(50), Some(-20), "b");
      var s := Store(map[1 := pending, 2 := done], 3);
      && GetNextMedia(s, IntArg(1)) == NoMoreMedia
      && GetNextMedia(s, Absent) == NextMedia(Row(1, pending))
  {
    var done := Markup("b.jpg", "uploads/b.jpg", Image, Some(Happy), Some(50), Some(-20), "b");
    assert StatusOf(done) == Completed;
  }

  datatype PrevResponse = CurrentIdRequired | PrevMedia(media: Row) | NoPreviousMedia

  /** `/api/prev`: a missing, unreadable or zero `current_id` is a 400;
      otherwise the record just before it, whatever its status. */
  function GetPrevMedia(s: Store, q: QueryArg): (r: PrevResponse)
    requires Valid(s)
    ensures r.CurrentIdRequired? <==> CurrentId(q) == 0
    ensures r.PrevMedia? ==>
      && r.media.id < CurrentId(q) && r.media.id in s.rows && r.media.item == s.rows[r.media.id]
      && forall id :: r.media.id < id < CurrentId(q) ==> id !in s.rows
    ensures r.NoPreviousMedia? <==> CurrentId(q) != 0 && forall id :: id < CurrentId(q) ==> id !in s.rows
  {
    var current := CurrentId(q);
    if current == 0 then CurrentIdRequired
    else
      match Previous(s, current)
      case Some(row) => PrevMedia(row)
      case None => NoPreviousMedia
  }

  // ---------------------------------------------------------------------------
  // Reset and scan routes

  datatype ResetResponse = ResetResponse(store: Store, total: nat, annotated: nat)

  /** `/api/reset`: clears every annotation and reports the record count
      with a fixed "annotated" of 0. The fixed numbers are the ones the
      statistics of the reset table give. */
  function ResetData(s: Store): (r: ResetResponse)
    requires Valid(s)
    ensures Valid(r.store)
    ensures r.store == ResetAnnotations(s).store
    ensures r.total == |s.rows| && r.annotated == 0
    ensures GetStats(r.store).total == r.total && GetStats(r.store).annotated == r.annotated
    ensures GetStats(r.store).pending == r.total
  {
    var reset := ResetAnnotations(s);
    ResponseAfterReset(s);
    ResetResponse(reset.store, Count(reset.store), 0)
  }

  /** The fixed numbers the reset route reports are the ones the statistics
      give afterwards. */
  lemma ResponseAfterReset(s: Store)
    requires Valid(s)
    ensures var r := ResetAnnotations(s).store;
      GetStats(r).annotated == 0 && GetStats(r).total == Count(r) == |s.rows|
  {
    ResetClearsStats(s);
  }

  datatype ScanResponse = ScanResponse(store: Store, message: string, files: seq<Row>, total: nat)

  /** `/api/scan`: the scan plus its "Found N new files" message and the
      record count afterwards. */
  function ScanUploadFolder(s: Store, entries: seq<Uploads.DirEntry>): (r: ScanResponse)
    requires Valid(s)
    ensures Valid(r.store)
    ensures r.store == Uploads.Scan(s, entries).store && r.files == Uploads.Scan(s, entries).files
    ensures r.total == |r.store.rows| == |s.rows| + |r.files|
    ensures r.message == "Found " + NatToString(|r.files|) + " new files"
    ensures |r.files| == |Uploads.NewNames(s, entries)|
  {
    var scanned := Uploads.Scan(s, entries);
    ScanGrowsByFiles(s, entries);
    Uploads.ScanCountsNewNames(s, entries);
    ScanResponse(scanned.store, "Found " + NatToString(|scanned.files|) + " new files",
                 scanned.files, Count(scanned.store))
  }

  /** Running the scan route again over the same listing finds nothing:
      the second response reports no files, "Found 0 new files", and the
      same record count. */
  lemma ScanRouteTwice(s: Store, entries: seq<Uploads.DirEntry>)
    requires Valid(s)
    ensures var once := ScanUploadFolder(s, entries);
      var twice := ScanUploadFolder(once.store, entries);
      && twice.files == []
      && twice.message == "Found 0 new files"
      && twice.store == once.store
      && twice.total == once.total
  {
    var once := ScanUploadFolder(s, entries);
    Uploads.ScanTwiceFindsNothing(s, entries);
    Uploads.ScanUnchangedWhenNothingFound(once.store, entries);
    NothingFoundMessage();
  }

  lemma NothingFoundMessage()
    ensures "Found " + NatToString(0) + " new files" == "Found 0 new files"
  {
    assert NatToString(0) == "0";
  }

  /** Each record the scan reports is one more row in the table. */
  lemma {:induction false} ScanGrowsByFiles(s: Store, entries: seq<Uploads.DirEntry>)
    requires Valid(s)
    ensures |Uploads.Scan(s, entries).store.rows| == |s.rows| + |Uploads.Scan(s, entries).files|
    decreases |entries|
  {
    if entries != [] {
      var first := Uploads.ScanEntry(s, entries[0]);
      ScanGrowsByFiles(first.store, entries[1..]);
      if first.files != [] {
        assert s.nextId !in s.rows;
      }
    }
  }

  // ---------------------------------------------------------------------------
  // Export

  /** The two timestamp columns as the export renders them; they come from
      the database clock and are not modelled further. */
  datatype Stamps = Stamps(created: string, updated: string)

  const CsvColumns: string :=
    "id" + "," + "filename" + "," + "filepath" + "," + "type" + "," + "emotion" + ","
    + "created_at" + "," + "updated_at"

  const CsvHeader: string := CsvColumns + "\n"

  /** `item['emotion'] or ''`. */
  function EmotionText(e: Option<Emotion>): string {
    match e
    case Some(x) => EmotionName(x)
    case None => ""
  }

  /** One record's line, without the terminating newline. */
  function CsvFields(r: Row, st: Stamps): string {
    NatToString(r.id) + "," + r.item.filename + "," + r.item.filepath + ","
    + MediaTypeName(r.item.mediaType) + "," + EmotionText(r.item.emotion) + ","
    + st.created + "," + st.updated
  }

  function CsvLines(rows: seq<Row>, stamps: nat -> Stamps): string {
    if rows == [] then "" else CsvFields(rows[0], stamps(rows[0].id)) + "\n" + CsvLines(rows[1..], stamps)
  }

  /** The number of rows an export's list comprehension keeps: those whose
      emotion is set (every stored emotion name is non-empty, so truthy). */
  function CountWithEmotion(rows: seq<Row>): nat {
    if rows == [] then 0
    else CountWithEmotion(rows[..|rows| - 1]) + (if rows[|rows| - 1].item.emotion.Some? then 1 else 0)
  }

  datatype Export = Export(results: seq<Row>, csv: string, total: nat, annotated: nat)

  /** `/api/export`: every record newest first, the CSV text, the record
      count, and the number of records that carry an emotion. */
  function ExportResults(s: Store, stamps: nat -> Stamps): (x: Export)
    requires Valid(s)
    ensures x.results == GetAll(s)
    ensures x.total == |s.rows|
    ensures |x.csv| >= |CsvHeader| && x.csv[..|CsvHeader|] == CsvHeader
    ensures x.annotated == Tables.CountWhere(s.rows, (m: Markup) => m.emotion.Some?)
  {
    var results := GetAll(s);
    ExportCountsEmotions(s);
    Export(results, CsvHeader + CsvLines(results, stamps), |results|, CountWithEmotion(results))
  }

  predicate DistinctIds(rows: seq<Row>) {
    forall i, j :: 0 <= i < j < |rows| ==> rows[i].id != rows[j].id
  }

  ghost function IdsWithEmotion(rows: seq<Row>): set<nat> {
    set i | 0 <= i < |rows| && rows[i].item.emotion.Some? :: rows[i].id
  }

  lemma {:induction false} CountWithEmotionIsSetSize(rows: seq<Row>)
    requires DistinctIds(rows)
    ensures CountWithEmotion(rows) == |IdsWithEmotion(rows)|
  {
    if rows != [] {
      var init := rows[..|rows| - 1];
      CountWithEmotionIsSetSize(init);
      IdsWithEmotionSnoc(rows);
    }
  }

  /** The ids with an emotion of a non-empty listing are those of all but its
      last row, plus the last row's id when it has an emotion, which is new. */
  lemma IdsWithEmotionSnoc(rows: seq<Row>)
    requires rows != [] && DistinctIds(rows)
    ensures var init, last := rows[..|rows| - 1], rows[|rows| - 1];
      && DistinctIds(init)
      && last.id !in IdsWithEmotion(init)
      && IdsWithEmotion(rows) == IdsWithEmotion(init) + (if last.item.emotion.Some? then {last.id} else {})
  {
    var init, last := rows[..|rows| - 1], rows[|rows| - 1];
    forall id | id in IdsWithEmotion(rows)
      ensures id in IdsWithEmotion(init) + (if last.item.emotion.Some? then {last.id} else {})
    {
      var i :| 0 <= i < |rows| && rows[i].item.emotion.Some? && rows[i].id == id;
      if i < |init| {
        assert init[i] == rows[i];
      }
    }
    forall id | id in IdsWithEmotion(init)
      ensures id in IdsWithEmotion(rows) && id != last.id
    {
      var i :| 0 <= i < |init| && init[i].item.emotion.Some? && init[i].id == id;
      assert rows[i] == init[i];
    }
  }

  /** The export's count is `COUNT(*) WHERE emotion IS NOT NULL`. */
  lemma ExportCountsEmotions(s: Store)
    requires Valid(s)
    ensures CountWithEmotion(GetAll(s)) == Tables.CountWhere(s.rows, (m: Markup) => m.emotion.Some?)
  {
    var rows := GetAll(s);
    assert DistinctIds(rows);
    CountWithEmotionIsSetSize(rows);
    ListingIdsWithEmotion(rows, s.rows);
    Tables.CountWhereIs(s.rows, (m: Markup) => m.emotion.Some?, IdsWithEmotion(rows));
  }

  /** A listing of exactly the rows of a table has the table's ids with an emotion. */
  lemma ListingIdsWithEmotion(rows: seq<Row>, m: map<nat, Markup>)
    requires forall i :: 0 <= i < |rows| ==> rows[i].id in m && rows[i].item == m[rows[i].id]
    requires forall id :: id in m ==> Row(id, m[id]) in rows
    ensures forall id :: id in IdsWithEmotion(rows) <==> id in m && m[id].emotion.Some?
  {
    forall id | id in m && m[id].emotion.Some?
      ensures id in IdsWithEmotion(rows)
    {
      var i :| 0 <= i < |rows| && rows[i] == Row(id, m[id]);
    }
  }

  /** The export's "annotated" never falls below the statistics' one... */
  lemma ExportAnnotatedAtLeastStats(s: Store, stamps: nat -> Stamps)
    requires Valid(s)
    ensures ExportResults(s, stamps).annotated >= GetStats(s).annotated
  {
    AnnotatedWithinEmotions(s);
  }

  /** ...and exceeds it as soon as one record has an emotion but lacks a
      valence or an arousal. */
  lemma ExportAnnotatedDiffersFromStats(stamps: nat -> Stamps)
    ensures
      var m := Markup("c.png", "uploads/c.png", Image, Some(Sad), None, Some(10), "c");
      var s := Store(map[1 := m], 2);
      ExportResults(s, stamps).annotated == 1 && GetStats(s).annotated == 0
  {
    var m := Markup("c.png", "uploads/c.png", Image, Some(Sad), None, Some(10), "c");
    var s := Store(map[1 := m], 2);
    Tables.CountAll(s.rows, (m: Markup) => m.emotion.Some?);
    assert CompletedIds(s) == {};
  }

  /** No field text of a record holds a line break. */
  predicate SingleLineFields(r: Row, st: Stamps) {
    '\n' !in r.item.filename && '\n' !in r.item.filepath
    && '\n' !in st.created && '\n' !in st.updated
  }

  /** When no field holds a line break, the CSV has the header line and
      exactly one line per record. */
  lemma ExportLineCount(s: Store, stamps: nat -> Stamps)
    requires Valid(s)
    requires forall id :: id in s.rows ==> SingleLineFields(Row(id, s.rows[id]), stamps(id))
    ensures CountChar(ExportResults(s, stamps).csv, '\n') == |s.rows| + 1
  {
    var rows := GetAll(s);
    assert forall i :: 0 <= i < |rows| ==> SingleLineFields(rows[i], stamps(rows[i].id)) by {
      forall i | 0 <= i < |rows|
        ensures SingleLineFields(rows[i], stamps(rows[i].id))
      {
        assert rows[i] == Row(rows[i].id, s.rows[rows[i].id]);
      }
    }
    CsvLinesCount(rows, stamps);
    CountCharAppend(CsvHeader, CsvLines(rows, stamps), '\n');
    HeaderIsOneLine();
    assert ExportResults(s, stamps).csv == CsvHeader + CsvLines(rows, stamps);
  }

  lemma HeaderIsOneLine()
    ensures CountChar(CsvHeader, '\n') == 1
  {
    assert '\n' !in CsvColumns;
    CountCharAbsent(CsvColumns, '\n');
    CountCharAppend(CsvColumns, "\n", '\n');
  }

  lemma {:induction false} CsvLinesCount(rows: seq<Row>, stamps: nat -> Stamps)
    requires forall i :: 0 <= i < |rows| ==> SingleLineFields(rows[i], stamps(rows[i].id))
    ensures CountChar(CsvLines(rows, stamps), '\n') == |rows|
  {
    if rows != [] {
      var fields := CsvFields(rows[0], stamps(rows[0].id));
      CsvLinesCount(rows[1..], stamps);
      SingleLineRecord(rows[0], stamps(rows[0].id));
      CountCharAbsent(fields, '\n');
      CountCharAppend(fields, "\n", '\n');
      CountCharAppend(fields + "\n", CsvLines(rows[1..], stamps), '\n');
    }
  }

  lemma SingleLineRecord(r: Row, st: Stamps)
    requires SingleLineFields(r, st)
    ensures '\n' !in CsvFields(r, st)
  {
    assert '\n' !in MediaTypeName(r.item.mediaType);
    assert '\n' !in EmotionText(r.item.emotion);
  }
}
