/** The `markup_results` table of backend/database.py and the `MarkupResult`
    operations over it, read off their SQL as an in-memory table: a map from
    SERIAL ids to records, with the annotation status derived from which of
    the three annotation columns are NULL. */
module MarkupStore {
  import opened Common
  import Tables

  /** The values the `emotion` column's CHECK constraint admits (the EMOTIONS list). */
  datatype Emotion = Angry | Sad | Neutral | Happy | Disgust | Surprise | Fear

  const Emotions: seq<Emotion> := [Angry, Sad, Neutral, Happy, Disgust, Surprise, Fear]

  function EmotionName(e: Emotion): string {
    match e
    case Angry => "angry"
    case Sad => "sad"
    case Neutral => "neutral"
    case Happy => "happy"
    case Disgust => "disgust"
    case Surprise => "surprise"
    case Fear => "fear"
  }

  /** The emotion a tag names, if it is one of the seven names. */
  function EmotionFromName(s: string): (r: Option<Emotion>)
    ensures r.Some? ==> EmotionName(r.value) == s
    ensures forall e :: EmotionName(e) == s ==> r == Some(e)
  {
    if s == "angry" then Some(Angry)
    else if s == "sad" then Some(Sad)
    else if s == "neutral" then Some(Neutral)
    else if s == "happy" then Some(Happy)
    else if s == "disgust" then Some(Disgust)
    else if s == "surprise" then Some(Surprise)
    else if s == "fear" then Some(Fear)
    else None
  }

  lemma EveryEmotionListed(e: Emotion)
    ensures e in Emotions
  {
  }

  /** A `DECIMAL(3,2)` value of the valence/arousal columns, in hundredths;
      the CHECK constraint keeps it within [-1.00, 1.00]. */
  type Hundredths = h: int | -100 <= h <= 100

  /** A validated valence or arousal, before the column rounds it. */
  type UnitReal = r: real | -1.0 <= r <= 1.0

  /** What a `DECIMAL(3,2)` column stores for `r`: the nearest hundredth,
      halves rounded away from zero. */
  function ToDecimal(r: UnitReal): (h: Hundredths)
    ensures r >= 0.0 ==> h as real - 0.5 <= r * 100.0 < h as real + 0.5
    ensures r < 0.0 ==> h as real - 0.5 < r * 100.0 <= h as real + 0.5
  {
    if r >= 0.0 then
      var f := (r * 100.0 + 0.5).Floor;
      assert f <= 100 by {
        assert r * 100.0 + 0.5 < 101.0;
      }
      f
    else
      var f := (-r * 100.0 + 0.5).Floor;
      assert f <= 100 by {
        assert -r * 100.0 + 0.5 < 101.0;
      }
      -f
  }

  /** A value that already has two decimals is stored exactly. */
  lemma DecimalExact(h: Hundredths)
    ensures ToDecimal(h as real / 100.0) == h
  {
    var r: UnitReal := h as real / 100.0;
    assert r * 100.0 == h as real;
  }

  /** One row of `markup_results`, without the clock-valued timestamp columns. */
  datatype Markup = Markup(
    filename: string,
    filepath: string,
    mediaType: MediaType,
    emotion: Option<Emotion>,
    valence: Option<Hundredths>,
    arousal: Option<Hundredths>,
    title: string)

  datatype Status = Pending | Completed

  /** The `CASE ... END as status` column of `get_all` and `get_by_id`. */
  function StatusOf(m: Markup): Status {
    if m.emotion.None? || m.valence.None? || m.arousal.None? then Pending else Completed
  }

  /** The WHERE clause of `get_next_unannotated` and `get_unannotated`. */
  predicate UnannotatedWhere(m: Markup) {
    m.emotion.None? || m.valence.None? || m.arousal.None?
  }

  /** The WHERE clause of the annotated count in `get_stats` and of `get_annotated`. */
  predicate AnnotatedWhere(m: Markup) {
    m.emotion.Some? && m.valence.Some? && m.arousal.Some?
  }

  predicate AnyRow(m: Markup) {
    true
  }

  /** The three spellings of "annotated" in the SQL agree: a record is
      completed exactly when all three annotation fields are set. */
  lemma StatusAgreesWithFilters(m: Markup)
    ensures StatusOf(m) == Completed <==> (m.emotion.Some? && m.valence.Some? && m.arousal.Some?)
    ensures StatusOf(m) == Pending <==> UnannotatedWhere(m)
    ensures StatusOf(m) == Completed <==> AnnotatedWhere(m)
  {
  }

  /** The media columns (everything but the annotation) agree. */
  predicate SameMedia(a: Markup, b: Markup) {
    a.filename == b.filename && a.filepath == b.filepath
    && a.mediaType == b.mediaType && a.title == b.title
  }

  datatype Row = Row(id: nat, item: Markup)

  /** The table and the next value of its `id SERIAL` sequence. */
  datatype Store = Store(rows: map<nat, Markup>, nextId: nat)

  ghost predicate Valid(s: Store) {
    s.nextId >= 1 && Tables.IdsBelow(s.rows, s.nextId)
  }

  const Empty: Store := Store(map[], 1)

  /** An integer id that names a stored row. */
  predicate Has(s: Store, id: int) {
    id >= 0 && (id as nat) in s.rows
  }

  function RowsOf(s: Store, ids: seq<nat>): (r: seq<Row>)
    requires forall i :: 0 <= i < |ids| ==> ids[i] in s.rows
    ensures |r| == |ids|
    ensures forall i :: 0 <= i < |ids| ==> r[i] == Row(ids[i], s.rows[ids[i]])
  {
    seq(|ids|, i requires 0 <= i < |ids| => Row(ids[i], s.rows[ids[i]]))
  }

  function Count(s: Store): (n: nat)
    ensures n == |s.rows.Keys|
  {
    |s.rows|
  }

  // ---------------------------------------------------------------------------
  // Lookups and inserts

  function GetById(s: Store, id: int): (r: Option<Row>)
    ensures r.Some? <==> Has(s, id)
    ensures r.Some? ==> r.value.id == id && r.value.item == s.rows[r.value.id]
  {
    if Has(s, id) then Some(Row(id as nat, s.rows[id as nat])) else None
  }

  predicate HasFilename(name: string, m: Markup) {
    m.filename == name
  }

  /** Some row stored under `filename`. The query has no ORDER BY, so which
      of several such rows it returns is unspecified; the model returns the
      one with the smallest id. */
  function GetByFilename(s: Store, filename: string): (r: Option<Row>)
    requires Valid(s)
    ensures r.Some? ==> r.value.id in s.rows && r.value.item == s.rows[r.value.id]
    ensures r.Some? ==> r.value.item.filename == filename
    ensures r.None? <==> forall id :: id in s.rows ==> s.rows[id].filename != filename
  {
    match Tables.FirstWhere(s.rows, 0, s.nextId, m => HasFilename(filename, m))
    case Some(id) => Some(Row(id, s.rows[id]))
    case None => None
  }

  datatype Created = Created(store: Store, row: Row)

  /** `INSERT ... RETURNING *`: a fresh id above every stored one, a record
      with no annotation, and a title that falls back to the filename when
      none (or an empty one) is given. */
  function Create(s: Store, filename: string, filepath: string, mediaType: MediaType,
                  title: Option<string>): (c: Created)
    requires Valid(s)
    ensures Valid(c.store)
    ensures c.row.id !in s.rows && forall id :: id in s.rows ==> id < c.row.id
    ensures c.store.rows == s.rows[c.row.id := c.row.item]
    ensures c.row.item.filename == filename && c.row.item.filepath == filepath
    ensures c.row.item.mediaType == mediaType
    ensures title.Some? && title.value != "" ==> c.row.item.title == title.value
    ensures title.None? || title.value == "" ==> c.row.item.title == filename
    ensures c.row.item.emotion.None? && c.row.item.valence.None? && c.row.item.arousal.None?
    ensures StatusOf(c.row.item) == Pending
  {
    var t := if title.Some? && title.value != "" then title.value else filename;
    var item := Markup(filename, filepath, mediaType, None, None, None, t);
    Created(Store(s.rows[s.nextId := item], s.nextId + 1), Row(s.nextId, item))
  }

  // ---------------------------------------------------------------------------
  // Updates

  datatype Updated = Updated(store: Store, result: Option<Row>)

  /** A value given to `update_emotion`, or the stored one when it is None. */
  function Keep(given: Option<UnitReal>, stored: Option<Hundredths>): Option<Hundredths> {
    match given
    case Some(v) => Some(ToDecimal(v))
    case None => stored
  }

  /** `update_emotion`: sets the emotion; each of valence and arousal is
      overwritten when given and keeps its stored value when None. An unknown
      id matches no row: nothing changes and the result is None. */
  function UpdateEmotion(s: Store, id: int, emotion: Emotion,
                         valence: Option<UnitReal>, arousal: Option<UnitReal>): (u: Updated)
    requires Valid(s)
    ensures Valid(u.store)
    ensures !Has(s, id) ==> u.result.None? && u.store == s
    ensures Has(s, id) ==> u.result.Some? && u.result.value.id == id
    ensures Has(s, id) ==> u.store == Store(s.rows[id as nat := u.result.value.item], s.nextId)
    ensures Has(s, id) ==>
      var before, after := s.rows[id as nat], u.result.value.item;
      && SameMedia(after, before)
      && after.emotion == Some(emotion)
      && (valence.None? ==> after.valence == before.valence)
      && (valence.Some? ==> after.valence == Some(ToDecimal(valence.value)))
      && (arousal.None? ==> after.arousal == before.arousal)
      && (arousal.Some? ==> after.arousal == Some(ToDecimal(arousal.value)))
  {
    if !Has(s, id) then Updated(s, None)
    else
      var before := s.rows[id as nat];
      var after := before.(emotion := Some(emotion),
                           valence := Keep(valence, before.valence),
                           arousal := Keep(arousal, before.arousal));
      Updated(Store(s.rows[id as nat := after], s.nextId), Some(Row(id as nat, after)))
  }

  function Stored(v: Option<UnitReal>): Option<Hundredths> {
    match v
    case Some(x) => Some(ToDecimal(x))
    case None => None
  }

  /** `update_vad`: overwrites valence and arousal (a None writes NULL) and
      leaves the emotion and every other row alone; an unknown id changes
      nothing and gives None. */
  function UpdateVad(s: Store, id: int, valence: Option<UnitReal>, arousal: Option<UnitReal>): (u: Updated)
    requires Valid(s)
    ensures Valid(u.store)
    ensures !Has(s, id) ==> u.result.None? && u.store == s
    ensures Has(s, id) ==> u.result.Some? && u.result.value.id == id
    ensures Has(s, id) ==> u.store == Store(s.rows[id as nat := u.result.value.item], s.nextId)
    ensures Has(s, id) ==>
      var before, after := s.rows[id as nat], u.result.value.item;
      && SameMedia(after, before)
      && after.emotion == before.emotion
      && (valence.None? ==> after.valence.None?)
      && (valence.Some? ==> after.valence == Some(ToDecimal(valence.value)))
      && (arousal.None? ==> after.arousal.None?)
      && (arousal.Some? ==> after.arousal == Some(ToDecimal(arousal.value)))
  {
    if !Has(s, id) then Updated(s, None)
    else
      var before := s.rows[id as nat];
      var after := before.(valence := Stored(valence), arousal := Stored(arousal));
      Updated(Store(s.rows[id as nat := after], s.nextId), Some(Row(id as nat, after)))
  }

  /** Setting valence and arousal and then sending an emotion alone leaves
      the record completed, with the valence and arousal set first. */
  lemma EmotionOnlyKeepsVad(s: Store, id: int, v: UnitReal, a: UnitReal, e: Emotion)
    requires Valid(s) && Has(s, id)
    ensures
      var s1 := UpdateVad(s, id, Some(v), Some(a)).store;
      var s2 := UpdateEmotion(s1, id, e, None, None).store;
      var r := GetById(s2, id);
      && r.Some?
      && r.value.item.emotion == Some(e)
      && r.value.item.valence == Some(ToDecimal(v))
      && r.value.item.arousal == Some(ToDecimal(a))
      && StatusOf(r.value.item) == Completed
  {
  }

  // ---------------------------------------------------------------------------
  // Traversal

  /** `get_next_unannotated`: the pending record with the smallest id above
      `current`; for `current <= 0` the scan starts at the beginning. */
  function NextUnannotated(s: Store, current: int): (r: Option<Row>)
    requires Valid(s)
    ensures r.Some? ==> current < r.value.id && r.value.id in s.rows
    ensures r.Some? ==> r.value.item == s.rows[r.value.id] && StatusOf(r.value.item) == Pending
    ensures r.Some? ==> forall id :: current < id < r.value.id && id in s.rows ==> StatusOf(s.rows[id]) == Completed
    ensures r.None? <==> forall id :: current < id && id in s.rows ==> StatusOf(s.rows[id]) == Completed
  {
    var found :=
      if current > 0 then Tables.FirstWhere(s.rows, current + 1, s.nextId, UnannotatedWhere)
      else Tables.FirstWhere(s.rows, 0, s.nextId, UnannotatedWhere);
    match found
    case Some(id) => Some(Row(id, s.rows[id]))
    case None => None
  }

  /** `get_previous`: the record with the largest id below `current`,
      whatever its status. */
  function Previous(s: Store, current: int): (r: Option<Row>)
    requires Valid(s)
    ensures r.Some? ==> r.value.id < current && r.value.id in s.rows && r.value.item == s.rows[r.value.id]
    ensures r.Some? ==> forall id :: r.value.id < id < current ==> id !in s.rows
    ensures r.None? <==> forall id :: id < current ==> id !in s.rows
  {
    var hi: nat := if current <= 0 then 0 else if current > s.nextId then s.nextId else current;
    match Tables.LastWhere(s.rows, hi, AnyRow)
    case Some(id) => Some(Row(id, s.rows[id]))
    case None => None
  }

  /** Concrete run of the traversal: three records, the second completed. */
  lemma NextSkipsCompleted()
    ensures
      var pending := Markup("a.jpg", "uploads/a.jpg", Image, None, None, None, "a");
      var done := Markup("b.jpg", "uploads/b.jpg", Image, Some(Happy), Some(50), Some(-20), "b");
      var s := Store(map[1 := pending, 2 := done, 3 := pending], 4);
      && NextUnannotated(s, 0) == Some(Row(1, pending))
      && NextUnannotated(s, 1) == Some(Row(3, pending))
      && NextUnannotated(s, 3).None?
      && Previous(s, 3) == Some(Row(2, done))
      && Previous(s, 1).None?
  {
    var pending := Markup("a.jpg", "uploads/a.jpg", Image, None, None, None, "a");
    var done := Markup("b.jpg", "uploads/b.jpg", Image, Some(Happy), Some(50), Some(-20), "b");
    var s := Store(map[1 := pending, 2 := done, 3 := pending], 4);
    assert StatusOf(s.rows[2]) == Completed;
  }

  /** Completing the record `get_next_unannotated` returned moves the
      traversal forward: asking again from the same place gives a later
      record or none. */
  lemma {:induction false} NextAdvancesAfterCompleting(s: Store, current: int, e: Emotion, v: UnitReal, a: UnitReal)
    requires Valid(s)
    requires NextUnannotated(s, current).Some?
    ensures
      var id := NextUnannotated(s, current).value.id;
      var s' := UpdateEmotion(s, id, e, Some(v), Some(a)).store;
      var next := NextUnannotated(s', current);
      next.None? || next.value.id > id
  {
    var id := NextUnannotated(s, current).value.id;
    var s' := UpdateEmotion(s, id, e, Some(v), Some(a)).store;
    assert StatusOf(s'.rows[id]) == Completed;
    assert forall j :: current < j <= id && j in s'.rows ==> StatusOf(s'.rows[j]) == Completed;
  }

  /** `get_previous` depends only on which ids exist, so annotating or
      resetting never changes where "previous" leads. */
  lemma PreviousIgnoresAnnotations(s: Store, t: Store, current: int)
    requires Valid(s) && Valid(t) && s.rows.Keys == t.rows.Keys
    ensures Previous(s, current).Some? <==> Previous(t, current).Some?
    ensures Previous(s, current).Some? ==> Previous(s, current).value.id == Previous(t, current).value.id
  {
  }

  // ---------------------------------------------------------------------------
  // Listings

  /** `get_all`, newest first; creation order is id order. */
  function GetAll(s: Store): (r: seq<Row>)
    requires Valid(s)
    ensures |r| == |s.rows|
    ensures forall i, j :: 0 <= i < j < |r| ==> r[i].id > r[j].id
    ensures forall i :: 0 <= i < |r| ==> r[i].id in s.rows && r[i].item == s.rows[r[i].id]
    ensures forall id :: id in s.rows ==> Row(id, s.rows[id]) in r
  {
    var ids := Tables.Descending(s.rows, 0, s.nextId, AnyRow);
    Tables.FullRangeCount(s.rows, s.nextId, AnyRow);
    Tables.CountAll(s.rows, AnyRow);
    var r := RowsOf(s, ids);
    assert forall id :: id in s.rows ==> id in ids;
    assert forall k :: 0 <= k < |ids| ==> r[k] == Row(ids[k], s.rows[ids[k]]);
    r
  }

  /** Every pending record, in id order. */
  function PendingRows(s: Store): (r: seq<Row>)
    requires Valid(s)
    ensures forall i, j :: 0 <= i < j < |r| ==> r[i].id < r[j].id
    ensures forall i :: 0 <= i < |r| ==> r[i].id in s.rows && r[i].item == s.rows[r[i].id]
    ensures forall i :: 0 <= i < |r| ==> StatusOf(r[i].item) == Pending
    ensures forall id :: id in s.rows && StatusOf(s.rows[id]) == Pending ==> Row(id, s.rows[id]) in r
    ensures |r| == |PendingIds(s)|
  {
    var ids := Tables.Ascending(s.rows, 0, s.nextId, UnannotatedWhere);
    Tables.FullRangeCount(s.rows, s.nextId, UnannotatedWhere);
    Tables.CountWhereIs(s.rows, UnannotatedWhere, PendingIds(s));
    var r := RowsOf(s, ids);
    assert forall id :: id in s.rows && StatusOf(s.rows[id]) == Pending ==> id in ids;
    r
  }

  /** `get_unannotated(limit)`: the first `limit` pending records in id
      order; a limit of None or 0 (falsy in Python) lists them all. */
  function GetUnannotated(s: Store, limit: Option<nat>): (r: seq<Row>)
    requires Valid(s)
    ensures r <= PendingRows(s)
    ensures limit.None? || limit.value == 0 ==> |r| == |PendingIds(s)|
    ensures limit.Some? && limit.value > 0 ==>
      |r| == if limit.value < |PendingIds(s)| then limit.value else |PendingIds(s)|
  {
    var all := PendingRows(s);
    if limit.Some? && limit.value > 0 then Tables.Take(all, limit.value) else all
  }

  /** `get_annotated`: the completed records. The source orders them by
      `updated_at`; the model lists them in id order. */
  function GetAnnotated(s: Store): (r: seq<Row>)
    requires Valid(s)
    ensures forall i, j :: 0 <= i < j < |r| ==> r[i].id < r[j].id
    ensures forall i :: 0 <= i < |r| ==> r[i].id in s.rows && r[i].item == s.rows[r[i].id]
    ensures forall i :: 0 <= i < |r| ==> StatusOf(r[i].item) == Completed
    ensures forall id :: id in s.rows && StatusOf(s.rows[id]) == Completed ==> Row(id, s.rows[id]) in r
  {
    var ids := Tables.Ascending(s.rows, 0, s.nextId, AnnotatedWhere);
    var r := RowsOf(s, ids);
    assert forall id :: id in s.rows && StatusOf(s.rows[id]) == Completed ==> id in ids;
    r
  }

  // ---------------------------------------------------------------------------
  // Statistics and reset

  datatype Stats = Stats(
    total: nat,
    annotated: nat,
    pending: int,
    completionRate: real,
    emotionSummary: map<Emotion, nat>,
    typeSummary: map<MediaType, nat>)

  ghost function CompletedIds(s: Store): set<nat> {
    set id | id in s.rows && StatusOf(s.rows[id]) == Completed
  }

  ghost function PendingIds(s: Store): set<nat> {
    set id | id in s.rows && StatusOf(s.rows[id]) == Pending
  }

  ghost function EmotionIds(s: Store, e: Emotion): set<nat> {
    set id | id in s.rows && s.rows[id].emotion == Some(e)
  }

  function EmotionCount(s: Store, e: Emotion): nat {
    Tables.CountWhere(s.rows, (m: Markup) => m.emotion == Some(e))
  }

  ghost function TypeIds(s: Store, t: MediaType): set<nat> {
    set id | id in s.rows && s.rows[id].mediaType == t
  }

  function TypeCount(s: Store, t: MediaType): nat {
    Tables.CountWhere(s.rows, (m: Markup) => m.mediaType == t)
  }

  /** A summary entry's count, 0 for a key the GROUP BY did not produce. */
  function Tally<K>(summary: map<K, nat>, k: K): nat {
    if k in summary then summary[k] else 0
  }

  /** The annotated count: records matching the stats query's
      `IS NOT NULL AND ...` filter, which are exactly the completed ones; the
      rest are the pending ones. */
  function AnnotatedCount(s: Store): (n: nat)
    ensures n == |CompletedIds(s)|
    ensures n + |PendingIds(s)| == |s.rows|
  {
    Tables.CountWhereIs(s.rows, AnnotatedWhere, CompletedIds(s));
    Tables.CountWhereIs(s.rows, UnannotatedWhere, PendingIds(s));
    Tables.CountComplement(s.rows, AnnotatedWhere, UnannotatedWhere);
    Tables.CountWhere(s.rows, AnnotatedWhere)
  }

  /** `emotion_summary`: one entry per emotion that some record carries,
      counting every record with that emotion whatever its status. */
  function EmotionSummary(s: Store): (summary: map<Emotion, nat>)
    ensures forall e :: Tally(summary, e) == |EmotionIds(s, e)|
    ensures forall e :: e in summary <==> EmotionIds(s, e) != {}
  {
    var summary := map e | e in Emotions && EmotionCount(s, e) > 0 :: EmotionCount(s, e);
    forall e
      ensures Tally(summary, e) == |EmotionIds(s, e)|
      ensures e in summary <==> EmotionIds(s, e) != {}
    {
      EveryEmotionListed(e);
      Tables.CountWhereIs(s.rows, (m: Markup) => m.emotion == Some(e), EmotionIds(s, e));
    }
    summary
  }

  /** `type_summary`: one entry per type that some record has, counting
      the records of that type; the image and video counts add up to the
      total. */
  function TypeSummary(s: Store): (summary: map<MediaType, nat>)
    ensures forall t :: Tally(summary, t) == |TypeIds(s, t)|
    ensures forall t :: t in summary <==> TypeIds(s, t) != {}
    ensures Tally(summary, Image) + Tally(summary, Video) == |s.rows|
  {
    Tables.CountComplement(s.rows, (m: Markup) => m.mediaType == Image, (m: Markup) => m.mediaType == Video);
    var summary := map t | t in {Image, Video} && TypeCount(s, t) > 0 :: TypeCount(s, t);
    forall t
      ensures Tally(summary, t) == |TypeIds(s, t)|
      ensures t in summary <==> TypeIds(s, t) != {}
    {
      Tables.CountWhereIs(s.rows, (m: Markup) => m.mediaType == t, TypeIds(s, t));
    }
    summary
  }

  /** `rate` is `part` as a percentage of a non-zero `whole`. */
  predicate IsPercentOf(rate: real, part: nat, whole: nat) {
    whole > 0 ==> rate * whole as real == part as real * 100.0
  }

  /** `completion_rate`: the annotated share as a percentage, 0 for an
      empty table instead of a division by zero. */
  function CompletionRate(annotated: nat, total: nat): (rate: real)
    requires annotated <= total
    ensures total == 0 ==> rate == 0.0
    ensures 0.0 <= rate <= 100.0
    ensures rate == 100.0 <==> total > 0 && annotated == total
    ensures rate == 0.0 <==> annotated == 0
    ensures IsPercentOf(rate, annotated, total)
  {
    if total > 0 then
      ShareFacts(annotated as real, total as real);
      annotated as real / total as real * 100.0
    else 0.0
  }

  /** The share `a / t` of a positive `t`, as a percentage: it lies in
      [0, 100], times `t` it gives back `100 * a`, and it is 0 or 100 only
      at the ends. */
  lemma ShareFacts(a: real, t: real)
    requires 0.0 <= a <= t && t > 0.0
    ensures var q := a / t * 100.0;
      && q * t == a * 100.0
      && 0.0 <= q <= 100.0
      && (q == 100.0 <==> a == t)
      && (q == 0.0 <==> a == 0.0)
  {
    var d := a / t;
    assert d * t == a;
    assert (d * 100.0) * t == (d * t) * 100.0;
    ShareBounds(d * 100.0, a, t);
  }

  /** Any `q` with `q * t == 100 * a` is the percentage `a` is of `t`: it
      lies in [0, 100] and is 0 or 100 only at the ends. */
  lemma ShareBounds(q: real, a: real, t: real)
    requires 0.0 <= a <= t && t > 0.0 && q * t == a * 100.0
    ensures 0.0 <= q <= 100.0
    ensures q == 100.0 <==> a == t
    ensures q == 0.0 <==> a == 0.0
  {
    if q > 100.0 {
      var e := q - 100.0;
      assert e * t > 0.0;
      assert q * t == e * t + 100.0 * t;
    }
    if q == 100.0 {
      assert a * 100.0 == t * 100.0;
    }
    if a == t {
      var e := q - 100.0;
      assert e * t == 0.0;
    }
  }

  /** `get_stats`, without the floating-point VAD summary. */
  function GetStats(s: Store): (st: Stats)
    ensures st.total == |s.rows|
    ensures st.annotated == |CompletedIds(s)| <= st.total
    ensures st.pending == st.total - st.annotated == |PendingIds(s)|
    ensures st.total == 0 ==> st.completionRate == 0.0
    ensures 0.0 <= st.completionRate <= 100.0
    ensures st.completionRate == 100.0 <==> st.total > 0 && PendingIds(s) == {}
    ensures forall e :: Tally(st.emotionSummary, e) == |EmotionIds(s, e)|
    ensures forall e :: e in st.emotionSummary <==> EmotionIds(s, e) != {}
    ensures IsPercentOf(st.completionRate, st.annotated, st.total)
    ensures forall t :: Tally(st.typeSummary, t) == |TypeIds(s, t)|
    ensures forall t :: t in st.typeSummary <==> TypeIds(s, t) != {}
    ensures Tally(st.typeSummary, Image) + Tally(st.typeSummary, Video) == st.total
  {
    var total := |s.rows|;
    var annotated := AnnotatedCount(s);
    Stats(total, annotated, total - annotated, CompletionRate(annotated, total),
          EmotionSummary(s), TypeSummary(s))
  }

  function ClearAnnotation(m: Markup): Markup {
    m.(emotion := None, valence := None, arousal := None)
  }

  datatype Reset = Reset(store: Store, rowCount: nat)

  /** `reset_annotations`: every record loses its emotion, valence and
      arousal and keeps everything else; the result is the number of rows
      the UPDATE touched. */
  function ResetAnnotations(s: Store): (r: Reset)
    requires Valid(s)
    ensures Valid(r.store)
    ensures r.store.rows.Keys == s.rows.Keys && r.store.nextId == s.nextId
    ensures r.rowCount == |s.rows|
    ensures forall id :: id in s.rows ==> SameMedia(r.store.rows[id], s.rows[id])
    ensures forall id :: id in r.store.rows ==>
      r.store.rows[id].emotion.None? && r.store.rows[id].valence.None? && r.store.rows[id].arousal.None?
  {
    Reset(Store(map id | id in s.rows :: ClearAnnotation(s.rows[id]), s.nextId), |s.rows|)
  }

  /** After a reset nothing is annotated: every record is pending, the stats
      count zero annotated and no emotions, and the record count is kept. */
  lemma ResetClearsStats(s: Store)
    requires Valid(s)
    ensures
      var r := ResetAnnotations(s);
      var st := GetStats(r.store);
      && st.annotated == 0
      && st.pending == st.total == r.rowCount == |s.rows|
      && st.emotionSummary == map[]
      && st.completionRate == 0.0
      && forall id :: id in r.store.rows ==> StatusOf(r.store.rows[id]) == Pending
  {
    var r := ResetAnnotations(s);
    assert r.store.rows.Keys == s.rows.Keys;
    assert |r.store.rows| == |s.rows| by {
      assert |r.store.rows.Keys| == |s.rows.Keys|;
    }
    assert CompletedIds(r.store) == {};
    var st := GetStats(r.store);
    forall e
      ensures e !in st.emotionSummary
    {
      assert EmotionIds(r.store, e) == {};
    }
  }

  /** Resetting twice is resetting once. */
  lemma ResetIdempotent(s: Store)
    requires Valid(s)
    ensures ResetAnnotations(ResetAnnotations(s).store).store == ResetAnnotations(s).store
  {
  }

  /** A record with an emotion but no valence is pending, yet it is counted
      in `emotion_summary`: the emotion counts cover every record with an
      emotion, not only completed ones. */
  lemma EmotionSummaryCountsPending()
    ensures
      var m := Markup("c.png", "uploads/c.png", Image, Some(Sad), None, Some(10), "c");
      var st := GetStats(Store(map[1 := m], 2));
      && StatusOf(m) == Pending
      && st.annotated == 0
      && Tally(st.emotionSummary, Sad) == 1
  {
    var m := Markup("c.png", "uploads/c.png", Image, Some(Sad), None, Some(10), "c");
    var s := Store(map[1 := m], 2);
    assert EmotionIds(s, Sad) == {1};
    assert CompletedIds(s) == {};
  }

  /** Each completed record has an emotion, so no emotion count summed over
      the seven emotions can fall short of the annotated count. */
  lemma AnnotatedWithinEmotions(s: Store)
    ensures GetStats(s).annotated <= Tables.CountWhere(s.rows, (m: Markup) => m.emotion.Some?)
  {
    Tables.CountMonotonic(s.rows, AnnotatedWhere, (m: Markup) => m.emotion.Some?);
  }
}
