/** The `submit_annotation` route of backend/app.py: how a JSON request body
    is checked, which store update it is turned into, and what the route
    answers. Everything a request can carry is a `JsonValue`; Python's
    `float()` on a string is the parameter `parse`, since its grammar is the
    Python runtime's, and PostgreSQL's `numeric` input on a string is the
    parameter `numeric`, since its grammar is the database's. */
module Annotate {
  import opened Common
  import opened Text
  import opened MarkupStore

  // ---------------------------------------------------------------------------
  // Reading the body

  /** `data.get(key)`: None both when the key is absent and when it holds JSON null. */
  function Get(d: map<string, JsonValue>, key: string): (r: Option<JsonValue>)
    ensures r.None? <==> key !in d || d[key] == JNull
    ensures r.Some? ==> key in d && r.value == d[key]
  {
    if key in d && d[key] != JNull then Some(d[key]) else None
  }

  /** What Python's `float()` makes of a value: a finite number, an
      infinity or NaN, a ValueError or TypeError, or an OverflowError. Only
      an int too large for a double raises OverflowError; `float()` of a
      string reads a decimal beyond the double range as an infinity, so
      `parse` does not answer `TooLarge`. */
  datatype FloatParse = Finite(value: real) | NonFinite | Unparseable | TooLarge

  /** The least int that `float()` refuses, 2^1024 - 2^970: halfway between
      the largest double, 2^1024 - 2^971, and 2^1024, and the halfway case
      rounds to the even neighbour 2^1024, which overflows. */
  const DoubleOverflow: int := 0xFFFFFFFFFFFFFC00000000000000000000000000000000000000000000000000000000000000000000000000000000000000000000000000000000000000000000000000000000000000000000000000000000000000000000000000000000000000000000000000000000000000000000000000000000000000000000000000

  /** `float(v)` on a decoded JSON value: booleans are the numbers 1 and 0,
      an int converts unless it is too large for a double, strings go
      through `parse`, and arrays and objects raise TypeError. */
  function ToFloat(v: JsonValue, parse: string -> FloatParse): (f: FloatParse)
    ensures v.JNumber? ==> f == Finite(v.n)
    ensures v.JInt? ==> (f == TooLarge <==> v.i <= -DoubleOverflow || DoubleOverflow <= v.i)
    ensures v.JInt? && f != TooLarge ==> f == Finite(v.i as real)
    ensures v.JString? ==> f == parse(v.s)
    ensures v.JArray? || v.JObject? || v.JNull? ==> f == Unparseable
  {
    match v
    case JNull => Unparseable
    case JBool(b) => Finite(if b then 1.0 else 0.0)
    case JInt(i) => if i <= -DoubleOverflow || DoubleOverflow <= i then TooLarge else Finite(i as real)
    case JNumber(n) => Finite(n)
    case JString(s) => parse(s)
    case JArray(_) => Unparseable
    case JObject(_) => Unparseable
  }

  /** The emotion a tag names: only a string equal to one of the seven
      EMOTIONS names one. */
  function TagEmotion(v: JsonValue): (r: Option<Emotion>)
    ensures r.Some? <==> v.JString? && exists e :: EmotionName(e) == v.s
    ensures r.Some? ==> v == JString(EmotionName(r.value))
  {
    match v
    case JString(s) => EmotionFromName(s)
    case _ => None
  }

  // ---------------------------------------------------------------------------
  // Validation

  /** Why a request is refused. Each reason but the last is a 400 with its
      message; `OverflowRaised` is an OverflowError of `float()`, which the
      route does not catch, so the framework answers 500. */
  datatype Reason =
    | MissingFields
    | NoTagOrVad
    | InvalidEmotion
    | ValenceOutOfRange
    | ValenceNotNumber
    | ArousalOutOfRange
    | ArousalNotNumber
    | OverflowRaised

  function ReasonMessage(r: Reason): string {
    match r
    case MissingFields => "Missing required fields"
    case NoTagOrVad => "Provide either emotion tag or VAD values"
    case InvalidEmotion => "Invalid emotion tag"
    case ValenceOutOfRange => "Valence must be between -1.0 and 1.0"
    case ValenceNotNumber => "Valence must be a number"
    case ArousalOutOfRange => "Arousal must be between -1.0 and 1.0"
    case ArousalNotNumber => "Arousal must be a number"
    case OverflowRaised => "Internal Server Error"
  }

  /** A valence or arousal that passed its check: the number `float()` read,
      and the JSON value the route hands on to the store unchanged. */
  datatype Vad = Vad(value: UnitReal, sent: JsonValue)

  /** A VAD value passes when it is absent or `float()` reads a number in
      [-1.0, 1.0]; NaN and infinities fail the range test, and values
      `float()` rejects are "not a number". */
  predicate VadAccepted(v: Option<JsonValue>, parse: string -> FloatParse) {
    v.None? || (ToFloat(v.value, parse).Finite? && -1.0 <= ToFloat(v.value, parse).value <= 1.0)
  }

  /** A VAD value whose `float()` raises OverflowError. */
  predicate VadRaises(v: Option<JsonValue>, parse: string -> FloatParse) {
    v.Some? && ToFloat(v.value, parse).TooLarge?
  }

  /** The check of one VAD value, with the two reasons the route gives and
      the exception it lets through. */
  function CheckVad(v: Option<JsonValue>, parse: string -> FloatParse,
                    outOfRange: Reason, notNumber: Reason): (r: Result<Option<Vad>, Reason>)
    requires outOfRange != notNumber && OverflowRaised !in {outOfRange, notNumber}
    ensures r.Ok? <==> VadAccepted(v, parse)
    ensures r.Ok? ==> (r.value.None? <==> v.None?)
    ensures r.Ok? && r.value.Some? ==>
      r.value.value.sent == v.value && ToFloat(v.value, parse) == Finite(r.value.value.value)
    ensures r.Err? ==> (r.error == notNumber <==> ToFloat(v.value, parse).Unparseable?)
    ensures r.Err? ==> (r.error == OverflowRaised <==> VadRaises(v, parse))
    ensures r.Err? ==> r.error in {outOfRange, notNumber, OverflowRaised}
  {
    match v
    case None => Ok(None)
    case Some(j) =>
      match ToFloat(j, parse)
      case Finite(x) => if -1.0 <= x <= 1.0 then Ok(Some(Vad(x, j))) else Err(outOfRange)
      case NonFinite => Err(outOfRange)
      case Unparseable => Err(notNumber)
      case TooLarge => Err(OverflowRaised)
  }

  /** The store update a valid request asks for. The route's two
      `update_emotion` branches differ only in passing valence and arousal
      explicitly or as their None defaults, so one command covers both. */
  datatype Command =
    | SetEmotion(mediaId: JsonValue, emotion: Emotion, valence: Option<Vad>, arousal: Option<Vad>)
    | SetVad(mediaId: JsonValue, valence: Option<Vad>, arousal: Option<Vad>)

  /** A tag that selects `update_emotion`: present and truthy. */
  predicate TruthyTag(d: map<string, JsonValue>) {
    Get(d, "tag").Some? && Truthy(Get(d, "tag").value)
  }

  /** The acceptance condition of the route, stated as one conjunction. */
  predicate Acceptable(body: Option<map<string, JsonValue>>, parse: string -> FloatParse) {
    && body.Some? && "mediaId" in body.value
    && var d := body.value;
    && (Get(d, "tag").Some? || (Get(d, "valence").Some? && Get(d, "arousal").Some?))
    && (TruthyTag(d) ==> TagEmotion(d["tag"]).Some?)
    && VadAccepted(Get(d, "valence"), parse)
    && VadAccepted(Get(d, "arousal"), parse)
  }

  /** A request that passes the checks before the VAD ones and then makes
      `float()` overflow: on the valence, or on the arousal after an
      accepted valence. */
  predicate RaisesOverflow(body: Option<map<string, JsonValue>>, parse: string -> FloatParse) {
    && body.Some? && "mediaId" in body.value
    && var d := body.value;
    && (Get(d, "tag").Some? || (Get(d, "valence").Some? && Get(d, "arousal").Some?))
    && (TruthyTag(d) ==> TagEmotion(d["tag"]).Some?)
    && (|| VadRaises(Get(d, "valence"), parse)
        || (VadAccepted(Get(d, "valence"), parse) && VadRaises(Get(d, "arousal"), parse)))
  }

  /** The checks of `submit_annotation`, in the route's order, and the
      dispatch to a store update. `body` is the decoded JSON object, None
      when there is none. */
  function Validate(body: Option<map<string, JsonValue>>, parse: string -> FloatParse): (r: Result<Command, Reason>)
    ensures r.Ok? <==> Acceptable(body, parse)
    ensures r == Err(MissingFields) <==> body.None? || "mediaId" !in body.value
    ensures r == Err(OverflowRaised) <==> RaisesOverflow(body, parse)
    ensures r.Ok? ==> r.value.mediaId == body.value["mediaId"]
    ensures r.Ok? ==> (r.value.SetEmotion? <==> TruthyTag(body.value))
    ensures r.Ok? && r.value.SetEmotion? ==> body.value["tag"] == JString(EmotionName(r.value.emotion))
    ensures r.Ok? ==>
      && (r.value.valence.None? <==> Get(body.value, "valence").None?)
      && (r.value.arousal.None? <==> Get(body.value, "arousal").None?)
      && (r.value.valence.Some? ==> r.value.valence.value.sent == body.value["valence"])
      && (r.value.arousal.Some? ==> r.value.arousal.value.sent == body.value["arousal"])
      && (r.value.valence.Some? ==> ToFloat(r.value.valence.value.sent, parse) == Finite(r.value.valence.value.value))
      && (r.value.arousal.Some? ==> ToFloat(r.value.arousal.value.sent, parse) == Finite(r.value.arousal.value.value))
  {
    if body.None? || "mediaId" !in body.value then Err(MissingFields)
    else
      var d := body.value;
      var tag, valence, arousal := Get(d, "tag"), Get(d, "valence"), Get(d, "arousal");
      if tag.None? && (valence.None? || arousal.None?) then Err(NoTagOrVad)
      else if TruthyTag(d) && TagEmotion(tag.value).None? then Err(InvalidEmotion)
      else
        match CheckVad(valence, parse, ValenceOutOfRange, ValenceNotNumber)
        case Err(why) => Err(why)
        case Ok(v) =>
          match CheckVad(arousal, parse, ArousalOutOfRange, ArousalNotNumber)
          case Err(why) => Err(why)
          case Ok(a) =>
            if TruthyTag(d) then Ok(SetEmotion(d["mediaId"], TagEmotion(tag.value).value, v, a))
            else Ok(SetVad(d["mediaId"], v, a))
  }

  /** Which reason a rejected request gets: the first failing check, in the
      order the route runs them. */
  lemma ValidateReasons(body: Option<map<string, JsonValue>>, parse: string -> FloatParse)
    requires body.Some? && "mediaId" in body.value
    ensures var d, r := body.value, Validate(body, parse);
      var vadFirst := Get(d, "tag").Some? || (Get(d, "valence").Some? && Get(d, "arousal").Some?);
      var emotionPasses := TruthyTag(d) ==> TagEmotion(d["tag"]).Some?;
      && (!vadFirst <==> r == Err(NoTagOrVad))
      && (r == Err(InvalidEmotion) <==> TruthyTag(d) && TagEmotion(d["tag"]).None?)
      && (r.Err? && r.error in {ValenceOutOfRange, ValenceNotNumber} ==>
            && vadFirst && emotionPasses
            && !VadAccepted(Get(d, "valence"), parse) && !VadRaises(Get(d, "valence"), parse))
      && (r.Err? && r.error in {ArousalOutOfRange, ArousalNotNumber} ==>
            && vadFirst && emotionPasses
            && VadAccepted(Get(d, "valence"), parse)
            && !VadAccepted(Get(d, "arousal"), parse) && !VadRaises(Get(d, "arousal"), parse))
  {
  }

  // ---------------------------------------------------------------------------
  // Turning the command into store calls

  /** What `WHERE id = %s` makes of the JSON `mediaId` the driver sends. */
  datatype IdMatch =
    | MatchesId(id: int)  // compares equal to exactly this integer id
    | MatchesNone         // a comparison no row satisfies (NULL, a fraction)
    | IdRejected          // the database refuses the statement

  /** PostgreSQL's reading of a quoted literal as `integer`, in the
      decimal form every version accepts: an optional sign, at least one
      digit, and a value within 32 bits. */
  function ParseInt4(s: string): (r: Option<int>)
    ensures r.Some? ==> -0x8000_0000 <= r.value < 0x8000_0000
  {
    var signed := |s| > 0 && (s[0] == '-' || s[0] == '+');
    var digits := if signed then s[1..] else s;
    if digits == [] || exists i :: 0 <= i < |digits| && !IsDigit(digits[i]) then None
    else
      var n: int := if signed && s[0] == '-' then -(ParseNat(digits) as int) else ParseNat(digits);
      if -0x8000_0000 <= n < 0x8000_0000 then Some(n) else None
  }

  /** Every 32-bit integer, written out in decimal, reads back as itself. */
  lemma ParseInt4RoundTrip(i: int)
    requires -0x8000_0000 <= i < 0x8000_0000
    ensures ParseInt4(IntToString(i)) == Some(i)
  {
    var s := IntToString(i);
    var digits := NatToString(if i < 0 then -i else i);
    if i < 0 {
      assert s[0] == '-' && s[1..] == digits;
    } else {
      assert s == digits && IsDigit(s[0]);
    }
    NatToStringRoundTrip(if i < 0 then -i else i);
  }

  /** A JSON integer or float compares as a number (an integer, or an
      integral float, can match a row); JSON null matches nothing; a string is a literal the column's type
      must accept; booleans, arrays and objects cannot be compared with an
      integer column. */
  function RowKey(v: JsonValue): (m: IdMatch)
    ensures m.MatchesId? ==> v.JInt? || v.JNumber? || v.JString?
    ensures v.JInt? ==> m == MatchesId(v.i)
    ensures v.JNumber? ==> (m.MatchesId? <==> v.n.Floor as real == v.n)
    ensures m.MatchesId? && v.JNumber? ==> m.id as real == v.n
    ensures v.JBool? || v.JArray? || v.JObject? ==> m == IdRejected
  {
    match v
    case JNull => MatchesNone
    case JInt(i) => MatchesId(i)
    case JNumber(n) => if n.Floor as real == n then MatchesId(n.Floor) else MatchesNone
    case JString(s) => if ParseInt4(s).Some? then MatchesId(ParseInt4(s).value) else IdRejected
    case _ => IdRejected
  }

  /** The nearest hundredth of `x`, counted in hundredths, with halves
      rounded away from zero: what a `numeric` column with two decimals
      keeps of a number. */
  function RoundHundredths(x: real): (h: int)
    ensures x >= 0.0 ==> h as real - 0.5 <= x * 100.0 < h as real + 0.5
    ensures x < 0.0 ==> h as real - 0.5 < x * 100.0 <= h as real + 0.5
  {
    if x >= 0.0 then (x * 100.0 + 0.5).Floor else -((-x * 100.0 + 0.5).Floor)
  }

  /** What a `DECIMAL(3,2)` valence or arousal column makes of a number a
      statement sends it. */
  datatype ColumnInput =
    | Fits(value: UnitReal)  // stored, as the hundredths `ToDecimal(value)`
    | BreaksCheck            // rounds outside [-1.00, 1.00]: the CHECK fails on the row it updates
    | Refused                // rounds to 10.00 or more in size: refused before any row is touched

  function ColumnReading(x: real): (c: ColumnInput)
    ensures c.Fits? <==> -100 <= RoundHundredths(x) <= 100
    ensures c.Fits? ==> ToDecimal(c.value) == RoundHundredths(x)
    ensures -1.0 <= x <= 1.0 ==> c == Fits(x)
    ensures c.Refused? <==> RoundHundredths(x) <= -1000 || 1000 <= RoundHundredths(x)
  {
    var h := RoundHundredths(x);
    if -100 <= h <= 100 then Fits(if x > 1.0 then 1.0 else if x < -1.0 then -1.0 else x)
    else if -1000 < h < 1000 then BreaksCheck
    else Refused
  }

  /** The number the column receives for a VAD value that passed the
      route's check. The route hands the JSON value on unchanged: a number
      is sent as that number; a string is sent as a quoted literal that
      PostgreSQL's `numeric` input reads (`numeric`, None when it refuses the
      text); a boolean is sent as an SQL boolean, which the column refuses. */
  function ColumnValue(v: Vad, numeric: string -> Option<real>): (c: ColumnInput)
    ensures v.sent.JInt? ==> c == ColumnReading(v.sent.i as real)
    ensures v.sent.JNumber? ==> c == ColumnReading(v.sent.n)
    ensures v.sent.JString? ==> c == (if numeric(v.sent.s).Some? then ColumnReading(numeric(v.sent.s).value) else Refused)
    ensures !v.sent.JInt? && !v.sent.JNumber? && !v.sent.JString? ==> c == Refused
  {
    match v.sent
    case JInt(i) => ColumnReading(i as real)
    case JNumber(n) => ColumnReading(n)
    case JString(s) => if numeric(s).Some? then ColumnReading(numeric(s).value) else Refused
    case _ => Refused
  }

  /** An absent value, or one the column stores. */
  predicate Fitting(v: Option<Vad>, numeric: string -> Option<real>) {
    v.None? || ColumnValue(v.value, numeric).Fits?
  }

  predicate Refusing(v: Option<Vad>, numeric: string -> Option<real>) {
    v.Some? && ColumnValue(v.value, numeric).Refused?
  }

  /** The value handed to the store: the one the column receives, when it fits. */
  function Value(v: Option<Vad>, numeric: string -> Option<real>): Option<UnitReal>
    requires Fitting(v, numeric)
  {
    match v
    case Some(x) => Some(ColumnValue(x, numeric).value)
    case None => None
  }

  /** The hundredths the column keeps for a value that fits. */
  function Kept(v: Vad, numeric: string -> Option<real>): Hundredths
    requires ColumnValue(v, numeric).Fits?
  {
    ToDecimal(ColumnValue(v, numeric).value)
  }

  function CommandId(c: Command): JsonValue {
    c.mediaId
  }

  /** The route's answer. */
  datatype Response =
    | BadRequest(reason: Reason)  // 400
    | NotFound                    // 404 "Media not found"
    | ServerError                 // an uncaught exception: the database raised (the transaction
                                  // rolls back), or `float()` overflowed
    | Saved(result: Row, stats: Stats)

  datatype Annotated = Annotated(store: Store, response: Response)

  /** Runs a validated command against the store. A mediaId or a value the
      statement cannot take fails whether or not a row matches; a value that
      breaks the CHECK constraint fails only on the row it would update. */
  function Apply(s: Store, c: Command, numeric: string -> Option<real>): (a: Annotated)
    requires Valid(s)
    ensures Valid(a.store)
    ensures !a.response.Saved? ==> a.store == s
    ensures !a.response.BadRequest?
    ensures a.response.ServerError? <==>
      || RowKey(c.mediaId).IdRejected? || Refusing(c.valence, numeric) || Refusing(c.arousal, numeric)
      || (&& RowKey(c.mediaId).MatchesId? && Has(s, RowKey(c.mediaId).id)
          && !(Fitting(c.valence, numeric) && Fitting(c.arousal, numeric)))
    ensures a.response.Saved? <==>
      && RowKey(c.mediaId).MatchesId? && Has(s, RowKey(c.mediaId).id)
      && Fitting(c.valence, numeric) && Fitting(c.arousal, numeric)
    ensures a.response.Saved? ==>
      var id := RowKey(c.mediaId).id;
      && a.response.result.id == id
      && a.store == Store(s.rows[id as nat := a.response.result.item], s.nextId)
      && a.response.stats == GetStats(a.store)
    ensures a.response.Saved? ==>
      var before, after := s.rows[RowKey(c.mediaId).id as nat], a.response.result.item;
      && SameMedia(after, before)
      && (c.SetEmotion? ==>
            && after.emotion == Some(c.emotion)
            && after.valence == (if c.valence.Some? then Some(Kept(c.valence.value, numeric)) else before.valence)
            && after.arousal == (if c.arousal.Some? then Some(Kept(c.arousal.value, numeric)) else before.arousal))
      && (c.SetVad? ==>
            && after.emotion == before.emotion
            && after.valence == (if c.valence.Some? then Some(Kept(c.valence.value, numeric)) else None)
            && after.arousal == (if c.arousal.Some? then Some(Kept(c.arousal.value, numeric)) else None))
  {
    var key := RowKey(c.mediaId);
    if key.IdRejected? || Refusing(c.valence, numeric) || Refusing(c.arousal, numeric) then Annotated(s, ServerError)
    else if key.MatchesNone? || !Has(s, key.id) then Annotated(s, NotFound)
    else if !Fitting(c.valence, numeric) || !Fitting(c.arousal, numeric) then Annotated(s, ServerError)
    else
      var u := match c
        case SetEmotion(_, e, v, a) => UpdateEmotion(s, key.id, e, Value(v, numeric), Value(a, numeric))
        case SetVad(_, v, a) => UpdateVad(s, key.id, Value(v, numeric), Value(a, numeric));
      Annotated(u.store, Saved(u.result.value, GetStats(u.store)))
  }

  /** The answer to a request the checks refuse: a 400 with the reason, or
      a 500 for the overflow the route does not catch. */
  function Refusal(s: Store, why: Reason): (a: Annotated)
    ensures a.store == s
    ensures a.response.ServerError? <==> why == OverflowRaised
    ensures !a.response.ServerError? ==> a.response == BadRequest(why)
  {
    if why == OverflowRaised then Annotated(s, ServerError) else Annotated(s, BadRequest(why))
  }

  /** `submit_annotation`: every rejection happens before any store call;
      a valid request runs exactly one update. */
  function SubmitAnnotation(s: Store, body: Option<map<string, JsonValue>>,
                            parse: string -> FloatParse, numeric: string -> Option<real>): (a: Annotated)
    requires Valid(s)
    ensures Valid(a.store)
    ensures a.response.BadRequest? <==> !Acceptable(body, parse) && !RaisesOverflow(body, parse)
    ensures a.response.BadRequest? ==> a.response.reason == Validate(body, parse).error
    ensures RaisesOverflow(body, parse) ==> a == Annotated(s, ServerError)
    ensures !a.response.Saved? ==> a.store == s
    ensures Acceptable(body, parse) ==> a == Apply(s, Validate(body, parse).value, numeric)
  {
    match Validate(body, parse)
    case Err(why) => Refusal(s, why)
    case Ok(c) => Apply(s, c, numeric)
  }

  // ---------------------------------------------------------------------------
  // Properties of the route

  /** The body `{"mediaId": id, "tag": name, "valence": v, "arousal": a}`. */
  function FullBody(id: nat, e: Emotion, v: UnitReal, a: UnitReal): map<string, JsonValue> {
    map["mediaId" := JInt(id), "tag" := JString(EmotionName(e)),
        "valence" := JNumber(v), "arousal" := JNumber(a)]
  }

  /** Such a body passes every check and asks for `update_emotion` with both numbers. */
  lemma FullBodyValidates(id: nat, e: Emotion, v: UnitReal, a: UnitReal, parse: string -> FloatParse)
    ensures Validate(Some(FullBody(id, e, v, a)), parse)
         == Ok(SetEmotion(JInt(id), e, Some(Vad(v, JNumber(v))), Some(Vad(a, JNumber(a)))))
  {
    var body := FullBody(id, e, v, a);
    assert Get(body, "tag") == Some(JString(EmotionName(e)));
    assert Get(body, "valence") == Some(JNumber(v)) && Get(body, "arousal") == Some(JNumber(a));
    assert EmotionName(e) != "";
    assert TruthyTag(body);
    var c := Validate(Some(body), parse);
    assert c.Ok? && c.value.SetEmotion?;
    assert EmotionFromName(EmotionName(e)) == Some(e);
  }

  /** A body naming an emotion, an existing id and two in-range numbers
      leaves that record completed, with the numbers rounded to hundredths. */
  lemma FullAnnotationCompletes(s: Store, id: nat, e: Emotion, v: UnitReal, a: UnitReal,
                                parse: string -> FloatParse, numeric: string -> Option<real>)
    requires Valid(s) && id in s.rows
    ensures var r := SubmitAnnotation(s, Some(FullBody(id, e, v, a)), parse, numeric);
      && r.response.Saved?
      && r.store.rows[id] == r.response.result.item
      && r.response.result.item.emotion == Some(e)
      && r.response.result.item.valence == Some(ToDecimal(v))
      && r.response.result.item.arousal == Some(ToDecimal(a))
      && StatusOf(r.response.result.item) == Completed
  {
    FullBodyValidates(id, e, v, a, parse);
  }

  /** A VAD string is stored as the database reads it, not as `float()`
      does. `float("0.145")` is a double just below 0.145, which would round
      to 0.14; the column reads the text exactly and keeps 0.15. */
  lemma StringVadUsesDatabaseReading(s: Store, id: nat, parse: string -> FloatParse,
                                     numeric: string -> Option<real>)
    requires Valid(s) && id in s.rows
    requires parse("0.145") == Finite(0.1449999999999999900079927783735911361873149871826171875)
    requires parse("0.5") == Finite(0.5)
    requires numeric("0.145") == Some(0.145) && numeric("0.5") == Some(0.5)
    ensures
      var body := map["mediaId" := JInt(id), "valence" := JString("0.145"), "arousal" := JString("0.5")];
      var r := SubmitAnnotation(s, Some(body), parse, numeric);
      && r.response.Saved?
      && r.response.result.item.valence == Some(15)
      && r.response.result.item.arousal == Some(50)
      && ToDecimal(0.1449999999999999900079927783735911361873149871826171875) == 14
  {
    var body := map["mediaId" := JInt(id), "valence" := JString("0.145"), "arousal" := JString("0.5")];
    assert Get(body, "tag").None?;
    assert Get(body, "valence") == Some(JString("0.145")) && Get(body, "arousal") == Some(JString("0.5"));
  }

  /** A VAD string that `float()` reads as an in-range number but the
      database's `numeric` input refuses (digits of another script, say)
      gets a server error, and nothing changes, whatever the mediaId. */
  lemma StringRefusedByDatabaseFails(s: Store, mediaId: JsonValue, t: string, x: UnitReal,
                                     parse: string -> FloatParse, numeric: string -> Option<real>)
    requires Valid(s)
    requires parse(t) == Finite(x) && numeric(t) == None
    ensures
      var body := map["mediaId" := mediaId, "valence" := JString(t), "arousal" := JNumber(0.0)];
      SubmitAnnotation(s, Some(body), parse, numeric) == Annotated(s, ServerError)
  {
    var body := map["mediaId" := mediaId, "valence" := JString(t), "arousal" := JNumber(0.0)];
    assert Get(body, "tag").None?;
    assert Get(body, "valence") == Some(JString(t)) && Get(body, "arousal") == Some(JNumber(0.0));
  }

  /** A valence written as an int too large for a double makes `float()`
      raise OverflowError, which the route does not catch: the answer is a
      server error, where the same value written with a fraction or an
      exponent fails the range check with a 400. One less converts. */
  lemma HugeIntegerValenceRaises(s: Store, mediaId: JsonValue, parse: string -> FloatParse,
                                 numeric: string -> Option<real>)
    requires Valid(s)
    ensures
      var asInt := map["mediaId" := mediaId, "valence" := JInt(DoubleOverflow), "arousal" := JInt(0)];
      var asFloat := map["mediaId" := mediaId, "valence" := JNumber(DoubleOverflow as real), "arousal" := JInt(0)];
      && SubmitAnnotation(s, Some(asInt), parse, numeric) == Annotated(s, ServerError)
      && SubmitAnnotation(s, Some(asFloat), parse, numeric) == Annotated(s, BadRequest(ValenceOutOfRange))
      && ToFloat(JInt(DoubleOverflow - 1), parse) == Finite((DoubleOverflow - 1) as real)
  {
    var asInt := map["mediaId" := mediaId, "valence" := JInt(DoubleOverflow), "arousal" := JInt(0)];
    var asFloat := map["mediaId" := mediaId, "valence" := JNumber(DoubleOverflow as real), "arousal" := JInt(0)];
    assert Get(asInt, "tag").None? && Get(asInt, "valence") == Some(JInt(DoubleOverflow));
    assert Get(asFloat, "tag").None? && Get(asFloat, "valence") == Some(JNumber(DoubleOverflow as real));
    assert Get(asInt, "arousal") == Some(JInt(0)) && Get(asFloat, "arousal") == Some(JInt(0));
  }

  /** A body whose tag is the empty string passes the "tag is None" test and
      the emotion test, and reaches `update_vad` with both values absent:
      the stored valence and arousal are erased, and a completed record
      turns pending. */
  lemma EmptyTagClearsVad(s: Store, id: nat, parse: string -> FloatParse, numeric: string -> Option<real>)
    requires Valid(s) && id in s.rows
    ensures
      var body := map["mediaId" := JInt(id), "tag" := JString("")];
      var r := SubmitAnnotation(s, Some(body), parse, numeric);
      && Validate(Some(body), parse) == Ok(SetVad(JInt(id), None, None))
      && r.response.Saved?
      && r.response.result.item.valence.None?
      && r.response.result.item.arousal.None?
      && StatusOf(r.response.result.item) == Pending
  {
    var body := map["mediaId" := JInt(id), "tag" := JString("")];
    assert Get(body, "valence").None? && Get(body, "arousal").None?;
  }

  /** The check the route evidently means at its "tag is None" test: a tag
      that is absent or falsy counts as no tag, so a request without an
      emotion must carry both VAD values. */
  function ValidateStrict(body: Option<map<string, JsonValue>>, parse: string -> FloatParse): (r: Result<Command, Reason>)
    ensures body.Some? && "mediaId" in body.value && !TruthyTag(body.value)
            && (Get(body.value, "valence").None? || Get(body.value, "arousal").None?)
            ==> r == Err(NoTagOrVad)
  {
    if body.Some? && "mediaId" in body.value && !TruthyTag(body.value)
       && (Get(body.value, "valence").None? || Get(body.value, "arousal").None?)
    then Err(NoTagOrVad)
    else Validate(body, parse)
  }

  /** Under the corrected check, a VAD-only update always writes two values,
      so it can never erase a stored valence or arousal. */
  lemma StrictVadUpdateHasBothValues(body: Option<map<string, JsonValue>>, parse: string -> FloatParse)
    ensures var r := ValidateStrict(body, parse);
      r.Ok? && r.value.SetVad? ==> r.value.valence.Some? && r.value.arousal.Some?
  {
  }

  /** The corrected check rejects only what the route's check lets through
      with a falsy tag and a missing VAD value; every other request is
      judged as before. */
  lemma StrictDiffersOnlyOnFalsyTags(body: Option<map<string, JsonValue>>, parse: string -> FloatParse)
    ensures ValidateStrict(body, parse) != Validate(body, parse) ==>
      && body.Some? && "mediaId" in body.value
      && Get(body.value, "tag").Some? && !Truthy(Get(body.value, "tag").value)
      && ValidateStrict(body, parse) == Err(NoTagOrVad)
  {
  }

  /** The route with the corrected check in place of the as-written one. */
  function SubmitAnnotationStrict(s: Store, body: Option<map<string, JsonValue>>,
                                  parse: string -> FloatParse, numeric: string -> Option<real>): (a: Annotated)
    requires Valid(s)
    ensures Valid(a.store)
    ensures !a.response.Saved? ==> a.store == s
    ensures a.response.BadRequest? <==> ValidateStrict(body, parse).Err? && ValidateStrict(body, parse).error != OverflowRaised
    ensures ValidateStrict(body, parse) == Err(OverflowRaised) ==> a == Annotated(s, ServerError)
  {
    match ValidateStrict(body, parse)
    case Err(why) => Refusal(s, why)
    case Ok(c) => Apply(s, c, numeric)
  }

  /** With the corrected check no request turns a completed record pending
      again: an annotation, once complete, can only be replaced. */
  lemma StrictSubmitKeepsCompleted(s: Store, body: Option<map<string, JsonValue>>,
                                   parse: string -> FloatParse, numeric: string -> Option<real>, id: nat)
    requires Valid(s) && id in s.rows && StatusOf(s.rows[id]) == Completed
    ensures var a := SubmitAnnotationStrict(s, body, parse, numeric);
      id in a.store.rows && StatusOf(a.store.rows[id]) == Completed
  {
    var a := SubmitAnnotationStrict(s, body, parse, numeric);
    if a.response.Saved? {
      StrictVadUpdateHasBothValues(body, parse);
    }
  }
}
