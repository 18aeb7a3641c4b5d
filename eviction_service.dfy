/**
 * The eviction prediction service: turns each key's access history into a
 * feature vector, asks the trained classifier how likely the key is to be read
 * again, and answers with every key's probability in ascending order and the
 * least likely key as the one to evict.
 */
module EvictionService {
  import opened Wrappers
  import opened Windows
  import opened Sorting

  /** A week, in hours: the value used for a key never accessed, and the cap on the feature. */
  const WEEK_HOURS: real := 168.0
  const HASH_BUCKETS: int := 10000
  const ACCESS_THRESHOLD: real := 0.5

  datatype Features = Features(
    keyHash: real,
    hoursSinceLastAccess: real,
    accessCountHour: nat,
    accessCountDay: nat,
    hourOfDay: int,
    dayOfWeek: int)

  /** The local hour (0-23) and weekday (Monday = 0) of a timestamp. */
  datatype LocalTime = LocalTime(hour: int, weekday: int)

  /**
   * What the service takes from its platform: the MD5 digest of a key's UTF-8 bytes
   * read as an integer, the local date-time of a millisecond timestamp (none when the
   * timestamp lies outside the platform's calendar, before year 1 or after year 9999,
   * where the conversion raises), and the wall clock in milliseconds.
   */
  datatype Environment = Environment(md5: string -> nat, localTime: int -> Option<LocalTime>, now: int)

  /** The trained classifier: the probability of class 1 ("will be accessed") for a feature vector. */
  datatype Model = Model(probability: Features -> real)

  ghost predicate ValidModel(m: Model)
  {
    forall f: Features :: 0.0 <= m.probability(f) <= 1.0
  }

  datatype Prediction = Prediction(key: string, probability: real, willBeAccessed: bool)

  function Probability(p: Prediction): real { p.probability }

  /** A key's hash feature: the digest's value modulo 10000, scaled into [0, 1) in steps of 1/10000. */
  function HashKey(digest: nat): (h: real)
    ensures 0.0 <= h < 1.0
    ensures (h * HASH_BUCKETS as real).Floor == digest % HASH_BUCKETS
    ensures (h * HASH_BUCKETS as real).Floor as real == h * HASH_BUCKETS as real
  {
    (digest % HASH_BUCKETS) as real / HASH_BUCKETS as real
  }

  /** The latest timestamp of a non-empty history. */
  function MaxOf(s: seq<int>): (m: int)
    requires |s| > 0
    ensures m in s
    ensures forall x :: x in s ==> x <= m
  {
    if |s| == 1 then s[0]
    else
      var rest := MaxOf(s[1..]);
      assert s == [s[0]] + s[1..];
      if s[0] >= rest then s[0] else rest
  }

  /**
   * The feature vector of one key, or none when the current time has no local
   * date-time (the conversion raises before any feature is computed). Hours since the
   * last access are capped at a week and are a week for a key without history; a
   * timestamp after `currentTime` gives a negative value, which is not clamped.
   */
  function ExtractFeatures(key: string, history: seq<int>, currentTime: int, env: Environment): (f: Option<Features>)
    ensures f.None? <==> env.localTime(currentTime).None?
    ensures f.Some? ==> 0.0 <= f.value.keyHash < 1.0
    ensures f.Some? ==> f.value.hoursSinceLastAccess <= WEEK_HOURS
    ensures f.Some? && history == [] ==> f.value.hoursSinceLastAccess == WEEK_HOURS
    ensures f.Some? && history != [] && currentTime - MaxOf(history) <= 168 * ONE_HOUR_MS ==>
              f.value.hoursSinceLastAccess * ONE_HOUR_MS as real == (currentTime - MaxOf(history)) as real
    ensures f.Some? && history != [] && currentTime - MaxOf(history) > 168 * ONE_HOUR_MS ==>
              f.value.hoursSinceLastAccess == WEEK_HOURS
    ensures f.Some? ==> f.value.accessCountHour == CountAtLeast(history, currentTime - ONE_HOUR_MS)
    ensures f.Some? ==> f.value.accessCountDay == CountAtLeast(history, currentTime - ONE_DAY_MS)
    ensures f.Some? ==> f.value.accessCountHour <= f.value.accessCountDay <= |history|
    ensures f.Some? ==> f.value.hourOfDay == env.localTime(currentTime).value.hour
                        && f.value.dayOfWeek == env.localTime(currentTime).value.weekday
  {
    match env.localTime(currentTime)
    case None => None
    case Some(local) =>
      var hours := if |history| > 0 then (currentTime - MaxOf(history)) as real / ONE_HOUR_MS as real else WEEK_HOURS;
      HourWithinDay(history, currentTime);
      Some(Features(
        HashKey(env.md5(key)),
        if hours < WEEK_HOURS then hours else WEEK_HOURS,
        CountAtLeast(history, currentTime - ONE_HOUR_MS),
        CountAtLeast(history, currentTime - ONE_DAY_MS),
        local.hour,
        local.weekday))
  }

  /**
   * The prediction for one key: its probability, and whether that is at least one half;
   * none when its history is `null` (counting its accesses raises) or its features fail.
   */
  function Score(model: Model, key: string, history: Option<seq<int>>, currentTime: int, env: Environment): (p: Option<Prediction>)
    ensures p.None? <==> history.None? || env.localTime(currentTime).None?
    ensures p.Some? ==> p.value.key == key
    ensures p.Some? ==> p.value.probability == model.probability(ExtractFeatures(key, history.value, currentTime, env).value)
    ensures p.Some? ==> (p.value.willBeAccessed <==> p.value.probability >= ACCESS_THRESHOLD)
  {
    if history.None? then None
    else
      match ExtractFeatures(key, history.value, currentTime, env)
      case None => None
      case Some(features) =>
        var probability := model.probability(features);
        Some(Prediction(key, probability, probability >= ACCESS_THRESHOLD))
  }

  /** A field of a JSON object: absent, present as `null`, or present with a value. */
  datatype Field<T> = Absent | Null | Given(value: T)

  /**
   * The request body as a JSON object; a key's history in the history map is a list of
   * timestamps or `null` (`None`).
   */
  datatype Request = Request(keys: Field<seq<string>>, accessHistory: Field<map<string, Option<seq<int>>>>, currentTime: Field<int>)

  /** The error answers: 503, 400 for a malformed request or no keys, and 500 for an exception the handler catches. */
  datatype PredictError = ModelNotLoaded | InvalidRequestFormat | NoKeysProvided | InternalError

  datatype Response =
    | Evict(evictKey: string, confidence: real, predictions: seq<Prediction>)
    | Failure(status: int, error: PredictError)

  /** `GET /health`: 503 until a model is loaded. */
  function Health(model: Option<Model>): (status: int)
    ensures status == 200 <==> model.Some?
    ensures status == 503 <==> model.None?
  {
    if model.None? then 503 else 200
  }

  /** A key's history as the handler looks it up: an unlisted key has none. */
  function HistoryOf(history: map<string, Option<seq<int>>>, key: string): Option<seq<int>>
  {
    GetOrDefault(history, key, Some([]))
  }

  /** Every requested key can be scored: the time has a local date-time and no history is `null`. */
  ghost predicate Scorable(keys: seq<string>, history: map<string, Option<seq<int>>>, currentTime: int, env: Environment)
  {
    && env.localTime(currentTime).Some?
    && forall i :: 0 <= i < |keys| ==> HistoryOf(history, keys[i]).Some?
  }

  /** The one prediction per requested key, in request order, before sorting. */
  ghost function Scores(model: Model, keys: seq<string>, history: map<string, Option<seq<int>>>, currentTime: int, env: Environment): (ps: seq<Prediction>)
    requires Scorable(keys, history, currentTime, env)
    ensures |ps| == |keys|
    ensures forall i :: 0 <= i < |keys| ==> Some(ps[i]) == Score(model, keys[i], HistoryOf(history, keys[i]), currentTime, env)
  {
    seq(|keys|, i requires 0 <= i < |keys| => Score(model, keys[i], HistoryOf(history, keys[i]), currentTime, env).value)
  }

  /**
   * `POST /predict`. Without a model: 503. Without a body (or with an empty or
   * `null` one), or without the key list or the history map: 400. With a `null` or
   * empty key list: 400. With a `null` history map or a `null` time, a time without a
   * local date-time, or a requested key whose history is `null`: a key's features
   * fail, which the handler answers with 500. Otherwise one prediction per
   * requested key, stably sorted by ascending probability; the first is the key to
   * evict and the confidence is the probability that it will not be accessed. An
   * absent time is the wall clock.
   */
  method Predict(model: Option<Model>, body: Option<Request>, env: Environment) returns (r: Response)
    requires model.Some? ==> ValidModel(model.value)
    ensures model.None? ==> r == Failure(503, ModelNotLoaded)
    ensures model.Some? && (body.None? || body.value.keys.Absent? || body.value.accessHistory.Absent?) ==>
              r == Failure(400, InvalidRequestFormat)
    ensures model.Some? && body.Some? && !body.value.keys.Absent? && !body.value.accessHistory.Absent? &&
            (body.value.keys.Null? || body.value.keys == Given([])) ==>
              r == Failure(400, NoKeysProvided)
    ensures model.Some? && body.Some? && body.value.keys.Given? && body.value.keys.value != [] && !body.value.accessHistory.Absent? &&
            (body.value.accessHistory.Null? || body.value.currentTime.Null?) ==>
              r == Failure(500, InternalError)
    ensures model.Some? && body.Some? && body.value.keys.Given? && body.value.keys.value != [] &&
            body.value.accessHistory.Given? && !body.value.currentTime.Null? ==>
              var req := body.value;
              var currentTime := if req.currentTime.Given? then req.currentTime.value else env.now;
              !Scorable(req.keys.value, req.accessHistory.value, currentTime, env) ==> r == Failure(500, InternalError)
    ensures model.Some? && body.Some? && body.value.keys.Given? && body.value.keys.value != [] &&
            body.value.accessHistory.Given? && !body.value.currentTime.Null? ==>
              var req := body.value;
              var currentTime := if req.currentTime.Given? then req.currentTime.value else env.now;
              Scorable(req.keys.value, req.accessHistory.value, currentTime, env) ==>
              var requested := Scores(model.value, req.keys.value, req.accessHistory.value, currentTime, env);
              && r.Evict?
              && r.predictions == SortBy(requested, Probability)
              && multiset(r.predictions) == multiset(requested)
              && SortedBy(r.predictions, Probability)
              && (forall q :: WithRank(r.predictions, Probability, q) == WithRank(requested, Probability, q))
              && r.evictKey == r.predictions[0].key
              && (forall i :: 0 <= i < |r.predictions| ==> r.predictions[0].probability <= r.predictions[i].probability)
              && r.confidence == 1.0 - r.predictions[0].probability
              && 0.0 <= r.confidence <= 1.0
  {
    if model.None? {
      return Failure(503, ModelNotLoaded);
    }
    if body.None? || body.value.keys.Absent? || body.value.accessHistory.Absent? {
      return Failure(400, InvalidRequestFormat);
    }
    if body.value.keys.Null? || |body.value.keys.value| == 0 {
      return Failure(400, NoKeysProvided);
    }
    if body.value.accessHistory.Null? || body.value.currentTime.Null? {
      return Failure(500, InternalError);
    }
    var keys := body.value.keys.value;
    var accessHistory := body.value.accessHistory.value;
    var currentTime := if body.value.currentTime.Given? then body.value.currentTime.value else env.now;
    var predictions: seq<Prediction> := [];
    for i := 0 to |keys|
      invariant |predictions| == i
      invariant i > 0 ==> env.localTime(currentTime).Some?
      invariant forall j :: 0 <= j < i ==> HistoryOf(accessHistory, keys[j]).Some?
      invariant forall j :: 0 <= j < i ==>
                  Some(predictions[j]) == Score(model.value, keys[j], HistoryOf(accessHistory, keys[j]), currentTime, env)
    {
      var keyHistory := HistoryOf(accessHistory, keys[i]);
      if keyHistory.None? {
        return Failure(500, InternalError);
      }
      var features := ExtractFeatures(keys[i], keyHistory.value, currentTime, env);
      if features.None? {
        return Failure(500, InternalError);
      }
      var probability := model.value.probability(features.value);
      predictions := predictions + [Prediction(keys[i], probability, probability >= ACCESS_THRESHOLD)];
    }
    ghost var requested := Scores(model.value, keys, accessHistory, currentTime, env);
    assert predictions == requested;
    var sorted := SortBy(predictions, Probability);
    SortByIsStableSort(predictions, Probability);
    var evict := sorted[0];
    assert evict in multiset(predictions);
    r := Evict(evict.key, 1.0 - evict.probability, sorted);
  }
}
