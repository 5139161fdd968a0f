/** The second schema of backend/models.py: categories, media, free-form
    annotations that point at both, and an annotation history log. The four
    tables are maps from SERIAL ids to rows; the foreign keys and their
    ON DELETE CASCADE rules are part of the model. Annotation payloads
    (JSONB) are the decoded JSON values the driver reads back. */
module HistoryStore {
  import opened Common
  import Tables

  datatype Category = Category(name: string, color: Option<string>)

  datatype MediaItem = MediaItem(filename: string, filepath: string, mediaType: MediaType, processed: bool)

  datatype Annotation = Annotation(
    mediaId: Option<nat>,
    categoryId: Option<nat>,
    data: JsonValue,
    userId: string)

  /** One `annotation_history` row; `next` is the `new_data` column. */
  datatype HistoryEntry = HistoryEntry(
    annotationId: Option<nat>,
    previous: Option<JsonValue>,
    next: Option<JsonValue>,
    action: string,
    changedBy: string)

  /** The four tables, each with the next value of its id sequence. */
  datatype Db = Db(
    categories: map<nat, Category>, nextCategory: nat,
    media: map<nat, MediaItem>, nextMedia: nat,
    annotations: map<nat, Annotation>, nextAnnotation: nat,
    history: map<nat, HistoryEntry>, nextHistory: nat)

  const DefaultUser: string := "default_user"

  const EmptyDb: Db := Db(map[], 1, map[], 1, map[], 1, map[], 1)

  /** Every id below its sequence's next value. */
  ghost predicate IdsValid(db: Db) {
    && db.nextCategory >= 1 && Tables.IdsBelow(db.categories, db.nextCategory)
    && db.nextMedia >= 1 && Tables.IdsBelow(db.media, db.nextMedia)
    && db.nextAnnotation >= 1 && Tables.IdsBelow(db.annotations, db.nextAnnotation)
    && db.nextHistory >= 1 && Tables.IdsBelow(db.history, db.nextHistory)
  }

  /** The UNIQUE constraint on `categories.name`. */
  ghost predicate NamesUnique(db: Db) {
    forall i, j :: i in db.categories && j in db.categories && db.categories[i].name == db.categories[j].name ==> i == j
  }

  /** Every non-NULL foreign key names an existing row. */
  ghost predicate KeysResolve(db: Db) {
    && (forall a :: a in db.annotations && db.annotations[a].mediaId.Some? ==> db.annotations[a].mediaId.value in db.media)
    && (forall a :: a in db.annotations && db.annotations[a].categoryId.Some? ==> db.annotations[a].categoryId.value in db.categories)
    && (forall h :: h in db.history && db.history[h].annotationId.Some? ==> db.history[h].annotationId.value in db.annotations)
  }

  ghost predicate Valid(db: Db) {
    IdsValid(db) && NamesUnique(db) && KeysResolve(db)
  }

  lemma EmptyValid()
    ensures Valid(EmptyDb)
  {
  }

  /** Why a statement fails and its transaction rolls back. */
  datatype DbError = UniqueViolation | ForeignKeyViolation | NotNullViolation | PayloadRejected | NoSuchAnnotation

  predicate NameTaken(db: Db, name: string) {
    exists id :: id in db.categories && db.categories[id].name == name
  }

  // ---------------------------------------------------------------------------
  // Categories

  /** The five categories `init_db` inserts. */
  const Defaults: seq<Category> := [
    Category("Person", Some("#FF6B6B")),
    Category("Vehicle", Some("#4ECDC4")),
    Category("Animal", Some("#FFD166")),
    Category("Building", Some("#06D6A0")),
    Category("Nature", Some("#118AB2"))]

  /** `INSERT ... ON CONFLICT (name) DO NOTHING`: the id sequence advances
      whether or not the row goes in. */
  function InsertIfAbsent(db: Db, c: Category): (r: Db)
    requires Valid(db)
    ensures Valid(r)
    ensures r.nextCategory == db.nextCategory + 1
    ensures NameTaken(db, c.name) ==> r.categories == db.categories
    ensures !NameTaken(db, c.name) ==> r.categories == db.categories[db.nextCategory := c]
    ensures NameTaken(r, c.name)
    ensures r.media == db.media && r.annotations == db.annotations && r.history == db.history
    ensures r == db.(categories := r.categories, nextCategory := r.nextCategory)
  {
    if NameTaken(db, c.name) then db.(nextCategory := db.nextCategory + 1)
    else
      var r := db.(categories := db.categories[db.nextCategory := c], nextCategory := db.nextCategory + 1);
      assert db.nextCategory !in db.categories;
      assert r.categories[db.nextCategory].name == c.name;
      r
  }

  /** The default-category loop of `init_db`, over any list of categories. */
  function InsertAll(db: Db, cs: seq<Category>): (r: Db)
    requires Valid(db)
    ensures Valid(r)
    ensures r.nextCategory == db.nextCategory + |cs|
    ensures r.media == db.media && r.annotations == db.annotations && r.history == db.history
    ensures r == db.(categories := r.categories, nextCategory := r.nextCategory)
    ensures forall id :: id in db.categories ==> id in r.categories && r.categories[id] == db.categories[id]
    decreases |cs|
  {
    if cs == [] then db else InsertAll(InsertIfAbsent(db, cs[0]), cs[1..])
  }

  /** `init_db`'s inserts. */
  function InitDefaults(db: Db): (r: Db)
    requires Valid(db)
    ensures Valid(r)
  {
    InsertAll(db, Defaults)
  }

  /** After the loop every listed name is stored. */
  lemma {:induction false} InsertAllStoresNames(db: Db, cs: seq<Category>)
    requires Valid(db)
    ensures forall i :: 0 <= i < |cs| ==> NameTaken(InsertAll(db, cs), cs[i].name)
    ensures forall n :: NameTaken(db, n) ==> NameTaken(InsertAll(db, cs), n)
    decreases |cs|
  {
    if cs != [] {
      var db1 := InsertIfAbsent(db, cs[0]);
      InsertAllStoresNames(db1, cs[1..]);
      forall i | 0 <= i < |cs|
        ensures NameTaken(InsertAll(db, cs), cs[i].name)
      {
        if i > 0 {
          assert cs[i] == cs[1..][i - 1];
        }
      }
      forall n | NameTaken(db, n)
        ensures NameTaken(InsertAll(db, cs), n)
      {
        var id :| id in db.categories && db.categories[id].name == n;
        assert id in db1.categories && db1.categories[id].name == n;
      }
    }
  }

  /** When every listed name is already stored, the loop inserts nothing:
      only the id sequence moves on. */
  lemma {:induction false} InsertAllKnownNames(db: Db, cs: seq<Category>)
    requires Valid(db)
    requires forall i :: 0 <= i < |cs| ==> NameTaken(db, cs[i].name)
    ensures InsertAll(db, cs).categories == db.categories
    decreases |cs|
  {
    if cs != [] {
      var db1 := InsertIfAbsent(db, cs[0]);
      assert forall n :: NameTaken(db1, n) <==> NameTaken(db, n);
      forall i | 0 <= i < |cs| - 1
        ensures NameTaken(db1, cs[1..][i].name)
      {
        assert cs[1..][i] == cs[i + 1];
      }
      InsertAllKnownNames(db1, cs[1..]);
    }
  }

  /** Running `init_db` again adds no category: the default inserts are
      idempotent on the table, though each run uses up five ids. */
  lemma InitDefaultsIdempotent(db: Db)
    requires Valid(db)
    ensures var once := InitDefaults(db);
      && InitDefaults(once).categories == once.categories
      && InitDefaults(once).nextCategory == once.nextCategory + 5
  {
    var once := InitDefaults(db);
    InsertAllStoresNames(db, Defaults);
    InsertAllKnownNames(once, Defaults);
  }

  /** After `init_db` each default name is stored, and, names being
      unique, stored exactly once. */
  lemma InitDefaultsStoresEachOnce(db: Db)
    requires Valid(db)
    ensures var r := InitDefaults(db);
      && (forall i :: 0 <= i < |Defaults| ==> NameTaken(r, Defaults[i].name))
      && NamesUnique(r)
  {
    InsertAllStoresNames(db, Defaults);
  }

  datatype CategoryResult = CategoryResult(db: Db, row: Result<Option<nat>, DbError>)

  /** `Category.create`: a new row, or a unique violation when the name is
      taken. The SERIAL default draws its id before the UNIQUE index is
      checked, so a failed insert uses up an id too. */
  function CategoryCreate(db: Db, name: string, color: Option<string>): (r: CategoryResult)
    requires Valid(db)
    ensures Valid(r.db)
    ensures r.row.Err? <==> NameTaken(db, name)
    ensures r.row.Err? ==> r.row.error == UniqueViolation && r.db == db.(nextCategory := db.nextCategory + 1)
    ensures r.row.Ok? ==>
      && r.row.value == Some(db.nextCategory)
      && db.nextCategory !in db.categories
      && r.db == db.(categories := db.categories[db.nextCategory := Category(name, color)],
                     nextCategory := db.nextCategory + 1)
  {
    if NameTaken(db, name) then CategoryResult(db.(nextCategory := db.nextCategory + 1), Err(UniqueViolation))
    else
      var r := db.(categories := db.categories[db.nextCategory := Category(name, color)],
                   nextCategory := db.nextCategory + 1);
      assert db.nextCategory !in db.categories;
      CategoryResult(r, Ok(Some(db.nextCategory)))
  }

  /** A name used by a category other than `id`. */
  predicate NameTakenByOther(db: Db, id: nat, name: string) {
    exists j :: j in db.categories && j != id && db.categories[j].name == name
  }

  /** `Category.update`: renames and recolours one category; an unknown id
      matches no row (None), and a name held by another category is a
      unique violation. */
  function CategoryUpdate(db: Db, id: nat, name: string, color: Option<string>): (r: CategoryResult)
    requires Valid(db)
    ensures Valid(r.db)
    ensures id !in db.categories ==> r == CategoryResult(db, Ok(None))
    ensures id in db.categories ==> (r.row.Err? <==> NameTakenByOther(db, id, name))
    ensures r.row.Err? ==> r.db == db
    ensures id in db.categories && r.row.Ok? ==>
      && r.row.value == Some(id)
      && r.db == db.(categories := db.categories[id := Category(name, color)])
  {
    if id !in db.categories then CategoryResult(db, Ok(None))
    else if NameTakenByOther(db, id, name) then CategoryResult(db, Err(UniqueViolation))
    else CategoryResult(db.(categories := db.categories[id := Category(name, color)]), Ok(Some(id)))
  }

  /** `Category.delete`: removes the category; the cascades remove its
      annotations and, in turn, their history. */
  function CategoryDelete(db: Db, id: nat): (r: Db)
    requires Valid(db)
    ensures Valid(r)
    ensures id !in r.categories
    ensures forall c :: c in r.categories <==> c in db.categories && c != id
    ensures forall a :: a in r.annotations <==> a in db.annotations && db.annotations[a].categoryId != Some(id)
    ensures forall h :: h in r.history <==>
      h in db.history && (db.history[h].annotationId.None? || db.history[h].annotationId.value in r.annotations)
    ensures r.categories == db.categories - {id}
    ensures forall a :: a in r.annotations ==> r.annotations[a] == db.annotations[a]
    ensures forall h :: h in r.history ==> r.history[h] == db.history[h]
    ensures r == db.(categories := r.categories, annotations := r.annotations, history := r.history)
  {
    var annotations := map a | a in db.annotations && db.annotations[a].categoryId != Some(id) :: db.annotations[a];
    var history := map h | h in db.history
                      && (db.history[h].annotationId.None? || db.history[h].annotationId.value in annotations)
                      :: db.history[h];
    db.(categories := db.categories - {id}, annotations := annotations, history := history)
  }

  /** Deleting a category that does not exist deletes nothing: no
      annotation can be filed under it, so the cascades have nothing to do. */
  lemma CategoryDeleteUnknownChangesNothing(db: Db, id: nat)
    requires Valid(db) && id !in db.categories
    ensures CategoryDelete(db, id) == db
  {
    var r := CategoryDelete(db, id);
    assert r.categories == db.categories;
    assert r.annotations == db.annotations;
    assert r.history == db.history;
  }

  /** Deleting a category twice is deleting it once. */
  lemma CategoryDeleteIdempotent(db: Db, id: nat)
    requires Valid(db)
    ensures CategoryDelete(CategoryDelete(db, id), id) == CategoryDelete(db, id)
  {
    CategoryDeleteUnknownChangesNothing(CategoryDelete(db, id), id);
  }

  // ---------------------------------------------------------------------------
  // Media

  datatype MediaCreated = MediaCreated(db: Db, id: nat)

  /** `Media.create`. */
  function MediaCreate(db: Db, filename: string, filepath: string, mediaType: MediaType): (r: MediaCreated)
    requires Valid(db)
    ensures Valid(r.db)
    ensures r.id !in db.media
    ensures r.db == db.(media := db.media[r.id := MediaItem(filename, filepath, mediaType, false)],
                        nextMedia := db.nextMedia + 1)
  {
    MediaCreated(db.(media := db.media[db.nextMedia := MediaItem(filename, filepath, mediaType, false)],
                     nextMedia := db.nextMedia + 1), db.nextMedia)
  }

  /** `Media.get_by_id`. */
  function MediaGetById(db: Db, id: int): (r: Option<MediaItem>)
    ensures r.Some? <==> id >= 0 && id as nat in db.media
    ensures r.Some? ==> r.value == db.media[id as nat]
  {
    if id >= 0 && id as nat in db.media then Some(db.media[id as nat]) else None
  }

  /** The annotations whose `media_id` is `m`. */
  ghost function AnnotationsOf(db: Db, m: nat): set<nat> {
    set a | a in db.annotations && db.annotations[a].mediaId == Some(m)
  }

  predicate OnMedia(m: nat, a: Annotation) {
    a.mediaId == Some(m)
  }

  datatype MediaCount = MediaCount(id: nat, item: MediaItem, annotationCount: nat)

  /** One row of `Media.get_all`: `COUNT(a.id)` over the LEFT JOIN. */
  function CountAnnotations(db: Db, m: nat): (n: nat)
    ensures n == |AnnotationsOf(db, m)|
  {
    Tables.CountWhereIs(db.annotations, a => OnMedia(m, a), AnnotationsOf(db, m));
    Tables.CountWhere(db.annotations, a => OnMedia(m, a))
  }

  /** `Media.get_all`: every media row, newest first (upload order is id
      order), with its number of annotations; media without annotations
      count 0 rather than vanish. */
  function MediaGetAll(db: Db): (r: seq<MediaCount>)
    requires IdsValid(db)
    ensures |r| == |db.media|
    ensures forall i, j :: 0 <= i < j < |r| ==> RowIds(r)[i] > RowIds(r)[j]
    ensures forall m :: m in RowIds(r) <==> m in db.media
    ensures forall i :: 0 <= i < |r| ==> r[i].id in db.media && r[i].item == db.media[r[i].id]
    ensures forall i :: 0 <= i < |r| ==> r[i].annotationCount == |AnnotationsOf(db, r[i].id)|
  {
    CountsOf(db, MediaIds(db))
  }

  /** The ids of a listing, in order. */
  function RowIds(r: seq<MediaCount>): (ids: seq<nat>)
    ensures |ids| == |r| && forall i :: 0 <= i < |r| ==> ids[i] == r[i].id
  {
    seq(|r|, i requires 0 <= i < |r| => r[i].id)
  }

  /** Every media id, newest first. */
  function MediaIds(db: Db): (ids: seq<nat>)
    requires IdsValid(db)
    ensures |ids| == |db.media|
    ensures forall i, j :: 0 <= i < j < |ids| ==> ids[i] > ids[j]
    ensures forall m :: m in ids <==> m in db.media
  {
    var every := (x: MediaItem) => true;
    Tables.FullRangeCount(db.media, db.nextMedia, every);
    Tables.CountAll(db.media, every);
    Tables.Descending(db.media, 0, db.nextMedia, every)
  }

  function CountsOf(db: Db, ids: seq<nat>): (r: seq<MediaCount>)
    requires forall i :: 0 <= i < |ids| ==> ids[i] in db.media
    ensures RowIds(r) == ids
    ensures forall i :: 0 <= i < |ids| ==> r[i].item == db.media[ids[i]]
    ensures forall i :: 0 <= i < |ids| ==> r[i].annotationCount == |AnnotationsOf(db, ids[i])|
  {
    seq(|ids|, i requires 0 <= i < |ids| => MediaCount(ids[i], db.media[ids[i]], CountAnnotations(db, ids[i])))
  }

  // ---------------------------------------------------------------------------
  // Annotations and their history

  /** How the driver sends a Python value into a `jsonb` parameter. The
      value is one a JSON decoder can produce; `jsonbIn` is the column's
      reading of JSON text. None is sent as NULL (Ok(None)). A str is sent
      as a quoted literal, which the column parses as JSON text. An empty
      list is sent as the literal '{}', which parses as the empty object.
      The rest fail: a dict cannot be adapted at all, and a non-empty list
      (an SQL ARRAY), a number or a bool has a type a `jsonb` column refuses. */
  function Adapt(v: JsonValue, jsonbIn: string -> Option<JsonValue>): (r: Result<Option<JsonValue>, DbError>)
    ensures r == Ok(None) <==> v == JNull
    ensures r.Ok? <==> v == JNull || v == JArray(0) || (v.JString? && jsonbIn(v.s).Some?)
    ensures r.Ok? && v.JString? ==> r.value == jsonbIn(v.s)
    ensures r.Ok? && v == JArray(0) ==> r.value == Some(JObject(0))
    ensures r.Err? ==> r.error == PayloadRejected
  {
    match v
    case JNull => Ok(None)
    case JString(s) => if jsonbIn(s).Some? then Ok(jsonbIn(s)) else Err(PayloadRejected)
    case JArray(n) => if n == 0 then Ok(Some(JObject(0))) else Err(PayloadRejected)
    case _ => Err(PayloadRejected)
  }

  /** A value the `annotation_data` column accepts: it adapts, and not to
      NULL, which the NOT NULL constraint refuses. */
  predicate Storable(v: JsonValue, jsonbIn: string -> Option<JsonValue>) {
    Adapt(v, jsonbIn).Ok? && Adapt(v, jsonbIn).value.Some?
  }

  /** No stored payload that is an object, a number or a bool can be sent
      back as it was read: of the values the column can hold, only a string
      whose text is JSON, or the empty array, goes back in. */
  lemma ResendOnlyFromText(v: JsonValue, jsonbIn: string -> Option<JsonValue>)
    ensures Adapt(v, jsonbIn).Ok? && v != JNull ==> v.JString? || v == JArray(0)
    ensures v.JObject? || v.JInt? || v.JNumber? || v.JBool? ==> Adapt(v, jsonbIn).Err?
    ensures Adapt(v, jsonbIn) == Ok(Some(v)) ==> v.JString? && jsonbIn(v.s) == Some(v)
  {
  }

  /** Both foreign keys of a new annotation name existing rows (or are NULL). */
  predicate KeysExist(db: Db, mediaId: Option<nat>, categoryId: Option<nat>) {
    (mediaId.None? || mediaId.value in db.media) && (categoryId.None? || categoryId.value in db.categories)
  }

  datatype AnnotationCreated = AnnotationCreated(db: Db, id: Result<nat, DbError>)

  /** `Annotation.create`: `user` None stands for the omitted argument,
      which defaults to 'default_user'. A payload that does not adapt fails
      before the statement runs. A NULL payload and a media or category id
      that names no row fail while the row is inserted, after the SERIAL
      default has drawn its id, which is not given back. */
  function AnnotationCreate(db: Db, mediaId: Option<nat>, categoryId: Option<nat>, data: JsonValue,
                            user: Option<string>, jsonbIn: string -> Option<JsonValue>): (r: AnnotationCreated)
    requires Valid(db)
    ensures Valid(r.db)
    ensures r.id.Ok? <==> Storable(data, jsonbIn) && KeysExist(db, mediaId, categoryId)
    ensures Adapt(data, jsonbIn).Err? ==> r == AnnotationCreated(db, Err(PayloadRejected))
    ensures data == JNull ==> r.id == Err(NotNullViolation)
    ensures Storable(data, jsonbIn) && !KeysExist(db, mediaId, categoryId) ==> r.id == Err(ForeignKeyViolation)
    ensures Adapt(data, jsonbIn).Ok? ==> r.db.nextAnnotation == db.nextAnnotation + 1
    ensures r.id.Err? ==> r.db.annotations == db.annotations
    ensures r.db.categories == db.categories && r.db.media == db.media && r.db.history == db.history
    ensures r.db == db.(annotations := r.db.annotations, nextAnnotation := r.db.nextAnnotation)
    ensures r.id.Ok? ==> r.id.value == db.nextAnnotation
    ensures r.id.Ok? ==>
      && r.id.value !in db.annotations
      && r.db.annotations == db.annotations[r.id.value := Annotation(mediaId, categoryId, Adapt(data, jsonbIn).value.value, user.GetOr(DefaultUser))]
  {
    match Adapt(data, jsonbIn)
    case Err(e) => AnnotationCreated(db, Err(e))
    case Ok(payload) =>
      var drawn := db.(nextAnnotation := db.nextAnnotation + 1);
      if payload.None? then AnnotationCreated(drawn, Err(NotNullViolation))
      else if !KeysExist(db, mediaId, categoryId) then AnnotationCreated(drawn, Err(ForeignKeyViolation))
      else
        var a := Annotation(mediaId, categoryId, payload.value, user.GetOr(DefaultUser));
        AnnotationCreated(drawn.(annotations := db.annotations[db.nextAnnotation := a]), Ok(db.nextAnnotation))
  }

  datatype Changed = Changed(db: Db, result: Result<nat, DbError>)

  /** `Annotation.update` as written: reads the old payload back, replaces
      it, and logs one 'update' entry with the old payload as read and the
      new one. An unknown id makes the first fetch return None, whose
      subscript raises. A new payload the column refuses fails the UPDATE,
      and an old one that does not adapt fails the history INSERT; either
      way the transaction rolls back and nothing is written. The source
      returns the updated row (its UPDATE has RETURNING *), which here is
      `r.db.annotations[id]`; the `Ok` payload is instead the id of the
      'update' entry, so that the history it wrote can be named. */
  function AnnotationUpdate(db: Db, id: nat, data: JsonValue, user: Option<string>,
                            jsonbIn: string -> Option<JsonValue>): (r: Changed)
    requires Valid(db)
    ensures Valid(r.db)
    ensures id !in db.annotations ==> r.result == Err(NoSuchAnnotation)
    ensures r.result.Ok? <==>
      id in db.annotations && Storable(data, jsonbIn) && Adapt(db.annotations[id].data, jsonbIn).Ok?
    ensures r.result.Err? ==> r.db == db
    ensures r.result.Ok? ==>
      var old_ := db.annotations[id];
      var h := r.result.value;
      && r.db.annotations == db.annotations[id := old_.(data := Adapt(data, jsonbIn).value.value)]
      && h !in db.history
      && r.db.history == db.history[h := HistoryEntry(Some(id), Adapt(old_.data, jsonbIn).value,
                                                      Adapt(data, jsonbIn).value, "update", user.GetOr(DefaultUser))]
      && r.db.categories == db.categories && r.db.media == db.media
    ensures r.result.Ok? ==>
      && r.result.value == db.nextHistory
      && r.db == db.(annotations := r.db.annotations, history := r.db.history, nextHistory := db.nextHistory + 1)
  {
    if id !in db.annotations then Changed(db, Err(NoSuchAnnotation))
    else
      match Adapt(data, jsonbIn)
      case Err(e) => Changed(db, Err(e))
      case Ok(payload) =>
        if payload.None? then Changed(db, Err(NotNullViolation))
        else
          var before := db.annotations[id];
          match Adapt(before.data, jsonbIn)
          case Err(e) => Changed(db, Err(e))
          case Ok(previous) =>
            var entry := HistoryEntry(Some(id), previous, payload, "update", user.GetOr(DefaultUser));
            Changed(db.(annotations := db.annotations[id := before.(data := payload.value)],
                        history := db.history[db.nextHistory := entry], nextHistory := db.nextHistory + 1),
                    Ok(db.nextHistory))
  }

  /** `Annotation.update` as evidently intended: the old payload is sent
      back wrapped as JSON text (psycopg2's `Json`), so the log records it
      exactly, whatever its kind. */
  function AnnotationUpdateWrapped(db: Db, id: nat, data: JsonValue, user: Option<string>,
                                   jsonbIn: string -> Option<JsonValue>): (r: Changed)
    requires Valid(db)
    ensures Valid(r.db)
    ensures r.result.Ok? <==> id in db.annotations && Storable(data, jsonbIn)
    ensures r.result.Err? ==> r.db == db
    ensures r.result.Ok? ==>
      && r.result.value == db.nextHistory
      && r.db == db.(annotations := r.db.annotations, history := r.db.history, nextHistory := db.nextHistory + 1)
  {
    if id !in db.annotations then Changed(db, Err(NoSuchAnnotation))
    else if !Storable(data, jsonbIn) then Changed(db, Err(if data == JNull then NotNullViolation else PayloadRejected))
    else
      var before := db.annotations[id];
      var payload := Adapt(data, jsonbIn).value;
      var entry := HistoryEntry(Some(id), Some(before.data), payload, "update", user.GetOr(DefaultUser));
      Changed(db.(annotations := db.annotations[id := before.(data := payload.value)],
                  history := db.history[db.nextHistory := entry], nextHistory := db.nextHistory + 1),
              Ok(db.nextHistory))
  }

  /** With the old payload wrapped, every update of an existing annotation
      with a storable payload succeeds, logs the old payload unchanged, and
      leaves the annotation as the as-written update would when that one
      succeeds. */
  lemma WrappedUpdateLogsPrevious(db: Db, id: nat, data: JsonValue, user: Option<string>,
                                  jsonbIn: string -> Option<JsonValue>)
    requires Valid(db) && id in db.annotations && Storable(data, jsonbIn)
    ensures var r := AnnotationUpdateWrapped(db, id, data, user, jsonbIn);
      && r.result.Ok?
      && r.result.value !in db.history
      && r.db.history[r.result.value].previous == Some(db.annotations[id].data)
      && r.db.history[r.result.value].next == Adapt(data, jsonbIn).value
      && r.db.annotations[id].data == Adapt(data, jsonbIn).value.value
      && (AnnotationUpdate(db, id, data, user, jsonbIn).result.Ok? ==>
            AnnotationUpdate(db, id, data, user, jsonbIn).db.annotations == r.db.annotations)
  {
  }

  /** An annotation whose stored payload is an object, a number or a bool
      can be neither updated nor deleted: the old payload read back does not
      adapt, and the statement fails with nothing changed. */
  lemma StructuredPayloadBlocksChanges(db: Db, id: nat, data: JsonValue, user: Option<string>,
                                       jsonbIn: string -> Option<JsonValue>)
    requires Valid(db) && id in db.annotations
    requires var p := db.annotations[id].data; p.JObject? || p.JInt? || p.JNumber? || p.JBool?
    ensures AnnotationUpdate(db, id, data, user, jsonbIn).result.Err?
    ensures AnnotationUpdate(db, id, data, user, jsonbIn).db == db
    ensures AnnotationDelete(db, id, user, jsonbIn) == Deleted(db, Err(PayloadRejected))
  {
    ResendOnlyFromText(db.annotations[id].data, jsonbIn);
  }

  /** The usual way in: an annotation created from the JSON text of an
      object is stored as that object, and from then on every update and
      every delete of it fails. */
  lemma CreatedObjectCannotChange(db: Db, mediaId: Option<nat>, categoryId: Option<nat>, text: string,
                                  n: nat, data: JsonValue, user: Option<string>,
                                  jsonbIn: string -> Option<JsonValue>)
    requires Valid(db) && KeysExist(db, mediaId, categoryId) && jsonbIn(text) == Some(JObject(n))
    ensures var c := AnnotationCreate(db, mediaId, categoryId, JString(text), user, jsonbIn);
      && c.id.Ok?
      && c.db.annotations[c.id.value].data == JObject(n)
      && AnnotationUpdate(c.db, c.id.value, data, user, jsonbIn).db == c.db
      && AnnotationUpdate(c.db, c.id.value, data, user, jsonbIn).result.Err?
      && AnnotationDelete(c.db, c.id.value, user, jsonbIn) == Deleted(c.db, Err(PayloadRejected))
  {
    var c := AnnotationCreate(db, mediaId, categoryId, JString(text), user, jsonbIn);
    StructuredPayloadBlocksChanges(c.db, c.id.value, data, user, jsonbIn);
  }

  /** Removes annotation `id` and, by the cascade on `annotation_id`, every
      history entry that refers to it. */
  function CascadeDelete(db: Db, id: nat): (r: Db)
    requires Valid(db)
    ensures Valid(r)
    ensures r.annotations == db.annotations - {id}
    ensures forall h :: h in r.history <==> h in db.history && db.history[h].annotationId != Some(id)
    ensures forall h :: h in r.history ==> r.history[h] == db.history[h]
    ensures r == db.(annotations := r.annotations, history := r.history)
  {
    var history := map h | h in db.history && db.history[h].annotationId != Some(id) :: db.history[h];
    db.(annotations := db.annotations - {id}, history := history)
  }

  /** `Annotation.delete` as written: logs a 'delete' entry and then deletes
      the annotation, whose cascade deletes that entry again. The source
      returns nothing; `logged` is the id the entry had. An old payload that does not adapt fails the
      history INSERT, and nothing is deleted. */
  datatype Deleted = Deleted(db: Db, logged: Result<nat, DbError>)

  function AnnotationDelete(db: Db, id: nat, user: Option<string>, jsonbIn: string -> Option<JsonValue>): (r: Deleted)
    requires Valid(db)
    ensures Valid(r.db)
    ensures id !in db.annotations ==> r.logged == Err(NoSuchAnnotation)
    ensures r.logged.Ok? <==> id in db.annotations && Adapt(db.annotations[id].data, jsonbIn).Ok?
    ensures r.logged.Err? ==> r.db == db
    ensures r.logged.Ok? ==> r.db.annotations == db.annotations - {id} && r.db.nextHistory == db.nextHistory + 1
    ensures r.logged.Ok? ==>
      && r.logged.value == db.nextHistory
      && r.db == db.(annotations := r.db.annotations, history := r.db.history, nextHistory := r.db.nextHistory)
  {
    if id !in db.annotations then Deleted(db, Err(NoSuchAnnotation))
    else
      match Adapt(db.annotations[id].data, jsonbIn)
      case Err(e) => Deleted(db, Err(e))
      case Ok(previous) =>
        var entry := HistoryEntry(Some(id), previous, None, "delete", user.GetOr(DefaultUser));
        var logged := db.(history := db.history[db.nextHistory := entry], nextHistory := db.nextHistory + 1);
        Deleted(CascadeDelete(logged, id), Ok(db.nextHistory))
  }

  /** The 'delete' entry does not survive its own transaction: whenever a
      delete goes through, the log afterwards holds no entry for the
      annotation, and nothing records that it was deleted. */
  lemma DeleteLeavesNoTrace(db: Db, id: nat, user: Option<string>, jsonbIn: string -> Option<JsonValue>)
    requires Valid(db) && id in db.annotations
    ensures var r := AnnotationDelete(db, id, user, jsonbIn);
      && (r.logged.Ok? <==> Adapt(db.annotations[id].data, jsonbIn).Ok?)
      && (r.logged.Ok? ==>
            && r.logged.value !in r.db.history
            && (forall h :: h in r.db.history ==> r.db.history[h].annotationId != Some(id))
            && (forall h :: h in r.db.history ==> h in db.history && r.db.history[h] == db.history[h]))
  {
  }

  /** The history table with `annotation_id ... ON DELETE SET NULL`: the
      rows that referred to `id` stay, unlinked. */
  function UnlinkHistory(db: Db, id: nat): (r: map<nat, HistoryEntry>)
    ensures r.Keys == db.history.Keys
    ensures forall h :: h in r ==>
      r[h] == (if db.history[h].annotationId == Some(id) then db.history[h].(annotationId := None) else db.history[h])
  {
    map h | h in db.history ::
      if db.history[h].annotationId == Some(id) then db.history[h].(annotationId := None) else db.history[h]
  }

  /** `Annotation.delete` as evidently intended: the old payload is sent
      wrapped as JSON text, and the 'delete' entry and the earlier entries
      of the annotation stay in the log, unlinked from the deleted row. */
  function AnnotationDeleteKeepingHistory(db: Db, id: nat, user: Option<string>): (r: Deleted)
    requires Valid(db)
    ensures Valid(r.db)
    ensures r.logged.Err? <==> id !in db.annotations
    ensures r.logged.Err? ==> r.db == db
    ensures r.logged.Ok? ==> r.db.annotations == db.annotations - {id}
    ensures r.logged.Ok? ==>
      && r.logged.value == db.nextHistory
      && r.db == db.(annotations := r.db.annotations, history := r.db.history, nextHistory := db.nextHistory + 1)
  {
    if id !in db.annotations then Deleted(db, Err(NoSuchAnnotation))
    else
      var entry := HistoryEntry(Some(id), Some(db.annotations[id].data), None, "delete", user.GetOr(DefaultUser));
      var logged := db.(history := db.history[db.nextHistory := entry], nextHistory := db.nextHistory + 1);
      Deleted(logged.(annotations := db.annotations - {id}, history := UnlinkHistory(logged, id)), Ok(db.nextHistory))
  }

  /** With the corrected delete, a delete adds exactly one entry to the
      log, holding the deleted payload, and keeps every earlier entry. */
  lemma DeleteKeepingHistoryLogsDelete(db: Db, id: nat, user: Option<string>)
    requires Valid(db) && id in db.annotations
    ensures var r := AnnotationDeleteKeepingHistory(db, id, user);
      && r.logged.Ok?
      && r.db.history.Keys == db.history.Keys + {r.logged.value}
      && r.logged.value !in db.history
      && r.db.history[r.logged.value]
         == HistoryEntry(None, Some(db.annotations[id].data), None, "delete", user.GetOr(DefaultUser))
      && (forall h :: h in db.history ==>
            (r.db.history[h].previous == db.history[h].previous
             && r.db.history[h].next == db.history[h].next
             && r.db.history[h].action == db.history[h].action))
  {
  }
  // ---------------------------------------------------------------------------
  // History listing

  /** The inner joins and the filter of `get_history`: the entry's
      annotation exists, belongs to media `m`, and has an existing category. */
  predicate Joined(db: Db, m: int, h: HistoryEntry) {
    && h.annotationId.Some? && h.annotationId.value in db.annotations
    && var a := db.annotations[h.annotationId.value];
    && a.mediaId.Some? && a.mediaId.value == m
    && a.categoryId.Some? && a.categoryId.value in db.categories
  }

  datatype HistoryRow = HistoryRow(id: nat, entry: HistoryEntry, categoryName: string)

  const HistoryLimit: nat := 50

  /** The ids of the 50 newest joined entries of media `m`, newest first. */
  function HistoryIds(db: Db, m: int): (ids: seq<nat>)
    requires IdsValid(db)
    ensures |ids| <= HistoryLimit
    ensures forall i, j :: 0 <= i < j < |ids| ==> ids[i] > ids[j]
    ensures forall i :: 0 <= i < |ids| ==> ids[i] in db.history && Joined(db, m, db.history[ids[i]])
    ensures forall h :: h in db.history && Joined(db, m, db.history[h]) && h !in ids ==>
      |ids| == HistoryLimit && forall i :: 0 <= i < |ids| ==> ids[i] > h
  {
    var all := Tables.Descending(db.history, 0, db.nextHistory, (e: HistoryEntry) => Joined(db, m, e));
    TakeSkipsOnlyLater(all, HistoryLimit);
    Tables.Take(all, HistoryLimit)
  }

  /** `get_history`: the 50 newest joined entries of media `m`, newest
      first (log order is id order), each with its category's name. */
  function GetHistory(db: Db, m: int): (r: seq<HistoryRow>)
    requires IdsValid(db)
    ensures |r| <= HistoryLimit
    ensures forall i, j :: 0 <= i < j < |r| ==> r[i].id > r[j].id
    ensures forall i :: 0 <= i < |r| ==>
      && r[i].id in db.history && r[i].entry == db.history[r[i].id] && Joined(db, m, r[i].entry)
      && r[i].categoryName == CategoryNameOf(db, m, r[i].entry)
  {
    HistoryRows(db, m, HistoryIds(db, m))
  }

  /** An entry of media `m` that the history leaves out is older than every
      one listed, and then the list is full. */
  lemma HistoryOmitsOnlyOlder(db: Db, m: int, h: nat)
    requires IdsValid(db)
    requires h in db.history && Joined(db, m, db.history[h])
    requires forall row :: row in GetHistory(db, m) ==> row.id != h
    ensures |GetHistory(db, m)| == HistoryLimit
    ensures forall row :: row in GetHistory(db, m) ==> row.id > h
  {
    var ids := HistoryIds(db, m);
    var r := GetHistory(db, m);
    forall k | 0 <= k < |ids|
      ensures ids[k] != h
    {
      assert r[k] in r;
    }
    forall row | row in r
      ensures row.id > h
    {
      var k :| 0 <= k < |r| && r[k] == row;
    }
  }

  function HistoryRows(db: Db, m: int, ids: seq<nat>): (r: seq<HistoryRow>)
    requires forall i :: 0 <= i < |ids| ==> ids[i] in db.history && Joined(db, m, db.history[ids[i]])
    ensures |r| == |ids|
    ensures forall i :: 0 <= i < |ids| ==>
      r[i] == HistoryRow(ids[i], db.history[ids[i]], CategoryNameOf(db, m, db.history[ids[i]]))
  {
    seq(|ids|, i requires 0 <= i < |ids| => HistoryRow(ids[i], db.history[ids[i]], CategoryNameOf(db, m, db.history[ids[i]])))
  }

  /** `c.name` of the category the entry's annotation is filed under. */
  function CategoryNameOf(db: Db, m: int, h: HistoryEntry): string
    requires Joined(db, m, h)
  {
    db.categories[db.annotations[h.annotationId.value].categoryId.value].name
  }

  /** An element of a descending list that its first `n` entries miss comes
      after all of them, and the prefix is full. */
  lemma TakeSkipsOnlyLater(all: seq<nat>, n: nat)
    requires forall i, j :: 0 <= i < j < |all| ==> all[i] > all[j]
    ensures forall h :: h in all && h !in Tables.Take(all, n) ==>
      |Tables.Take(all, n)| == n && forall i :: 0 <= i < n ==> Tables.Take(all, n)[i] > h
  {
    forall h | h in all && h !in Tables.Take(all, n)
      ensures |Tables.Take(all, n)| == n && forall i :: 0 <= i < n ==> Tables.Take(all, n)[i] > h
    {
      var k :| 0 <= k < |all| && all[k] == h;
      assert k >= n;
    }
  }

  /** An update that goes through puts its entry at the head of the history
      of the annotated media, when the annotation has a category. */
  lemma UpdateShowsInHistory(db: Db, id: nat, data: JsonValue, user: Option<string>,
                             jsonbIn: string -> Option<JsonValue>)
    requires Valid(db) && id in db.annotations
    requires var a := db.annotations[id]; a.mediaId.Some? && a.categoryId.Some?
    ensures var r := AnnotationUpdate(db, id, data, user, jsonbIn);
      var m := db.annotations[id].mediaId.value;
      && (r.result.Ok? <==> Storable(data, jsonbIn) && Adapt(db.annotations[id].data, jsonbIn).Ok?)
      && (r.result.Ok? ==>
            && |GetHistory(r.db, m)| > 0
            && GetHistory(r.db, m)[0].id == r.result.value
            && GetHistory(r.db, m)[0].entry.action == "update")
  {
    var r := AnnotationUpdate(db, id, data, user, jsonbIn);
    if r.result.Ok? {
      var m := db.annotations[id].mediaId.value;
      var h := r.result.value;
      var list := GetHistory(r.db, m);
      assert Joined(r.db, m, r.db.history[h]);
    }
  }
}
