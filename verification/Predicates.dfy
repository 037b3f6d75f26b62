/** Query predicates (common/query.go) and their evaluation over indexed bytes (datastore.go). */
module Predicates {
  import opened Bytes
  import opened Spans
  import opened Keys
  import opened Options

  datatype Op =
    | Contains | Equals | LessThanOrEquals | GreaterThanOrEquals | GreaterThan
    | UnknownOp(opName: ByteString)
  {
    predicate IsDescending() {
      LessThanOrEquals?
    }
  }

  datatype Field =
    | SpanIdField | Description | BeginTime | EndTime | DurationField | TracerId
    | UnknownField(fieldName: ByteString)

  /** A predicate as a client sends it; the value is text. */
  datatype Predicate = Predicate(op: Op, field: Field, val: ByteString)

  type FullId = id: SpanId | |id| == SPAN_ID_BYTES witness ZeroId()

  /** The text parsers the server calls: `SpanId.FromString` and base-10 `strconv.ParseInt`. */
  datatype Parsers = Parsers(spanId: ByteString -> Option<FullId>, int64: ByteString -> Option<Int64>)

  datatype QueryError = BadSpanId | BadNumber | NoSuchField | ContainsOnNumeric | NoSuchOperation

  datatype Result<+T> = Ok(value: T) | Err(error: QueryError)

  /** `predicateData`: the predicate with its value turned into index bytes. */
  datatype PredicateData = PredicateData(op: Op, field: Field, key: ByteString)

  predicate FieldIsNumeric(f: Field) {
    f in {SpanIdField, BeginTime, EndTime, DurationField}
  }

  /** Ids, times and durations have an index. */
  predicate HasIndex(f: Field) {
    f.SpanIdField? || f.BeginTime? || f.EndTime? || f.DurationField?
  }

  /** `getIndexPrefix`; zero stands for a field without an index. */
  function IndexPrefix(f: Field): Byte {
    match f
    case SpanIdField => SPAN_ID_INDEX_PREFIX
    case BeginTime => BEGIN_TIME_INDEX_PREFIX
    case EndTime => END_TIME_INDEX_PREFIX
    case DurationField => DURATION_INDEX_PREFIX
    case _ => 0
  }

  lemma IndexPrefixMeans(f: Field)
    ensures IndexPrefix(f) != 0 <==> HasIndex(f)
  {
  }

  /** What a successfully loaded predicate looks like. */
  predicate WellFormed(p: PredicateData) {
    !p.op.UnknownOp? && !p.field.UnknownField? &&
    (FieldIsNumeric(p.field) ==> !p.op.Contains?) &&
    (p.field in {BeginTime, EndTime, DurationField} ==> |p.key| == 8)
  }

  function LoadKey(p: Predicate, parsers: Parsers): Result<ByteString> {
    match p.field
    case SpanIdField =>
      var id := parsers.spanId(p.val);
      if id.Some? then Ok(id.value) else Err(BadSpanId)
    case Description => Ok(p.val)
    case TracerId => Ok(p.val)
    case UnknownField(_) => Err(NoSuchField)
    case _ =>
      var v := parsers.int64(p.val);
      if v.Some? then Ok(Int64Key(v.value)) else Err(BadNumber)
  }

  /** The field exists and the text can be read as a value of it. */
  predicate Readable(p: Predicate, parsers: Parsers) {
    match p.field
    case SpanIdField => parsers.spanId(p.val).Some?
    case Description => true
    case TracerId => true
    case UnknownField(_) => false
    case _ => parsers.int64(p.val).Some?
  }

  /** The value can be read, and the operation is known and makes sense for the field. */
  predicate Loadable(p: Predicate, parsers: Parsers) {
    Readable(p, parsers) && !p.op.UnknownOp? && (p.op.Contains? ==> p.field in {Description, TracerId})
  }

  /** `loadPredicateData`. A bad field or value is reported before a bad operation. */
  function LoadPredicateData(p: Predicate, parsers: Parsers): (r: Result<PredicateData>)
    ensures r.Ok? <==> Loadable(p, parsers)
    ensures r.Err? && r.error == NoSuchField <==> p.field.UnknownField?
    ensures r.Err? && r.error == BadSpanId <==> p.field.SpanIdField? && !Readable(p, parsers)
    ensures r.Err? && r.error == BadNumber <==>
            p.field in {BeginTime, EndTime, DurationField} && !Readable(p, parsers)
    ensures r.Err? && r.error == NoSuchOperation <==> Readable(p, parsers) && p.op.UnknownOp?
    ensures r.Err? && r.error == ContainsOnNumeric <==>
            Readable(p, parsers) && p.op.Contains? && p.field !in {Description, TracerId}
    ensures r.Ok? ==> WellFormed(r.value) && r.value.op == p.op && r.value.field == p.field
    ensures r.Ok? && p.field in {BeginTime, EndTime, DurationField} ==>
              r.value.key == Int64Key(parsers.int64(p.val).value)
    ensures r.Ok? && p.field.SpanIdField? ==> Some(r.value.key) == parsers.spanId(p.val)
    ensures r.Ok? && p.field in {Description, TracerId} ==> r.value.key == p.val
  {
    match LoadKey(p, parsers)
    case Err(e) => Err(e)
    case Ok(key) =>
      if p.op.UnknownOp? then Err(NoSuchOperation)
      else if p.op.Contains? && FieldIsNumeric(p.field) then Err(ContainsOnNumeric)
      else Ok(PredicateData(p.op, p.field, key))
  }

  /** `extractRelevantSpanData`. */
  function FieldBytes(f: Field, s: Span): ByteString
    requires !f.UnknownField?
  {
    match f
    case SpanIdField => s.id
    case Description => s.data.description
    case BeginTime => Int64Key(s.data.begin)
    case EndTime => Int64Key(s.data.end)
    case DurationField => Int64Key(Duration(s))
    case TracerId => s.data.tracerId
  }

  datatype Verdict = NotSatisfied | NotYetSatisfied | Satisfied

  predicate MatchesAt(needle: ByteString, hay: ByteString, i: nat) {
    i + |needle| <= |hay| && hay[i..i + |needle|] == needle
  }

  /** `bytes.Contains`. */
  predicate OccursIn(needle: ByteString, hay: ByteString) {
    exists i :: 0 <= i <= |hay| && MatchesAt(needle, hay, i)
  }

  /** `satisfiedBy`: a three-valued answer that also says whether scanning on is worth while. */
  function SatisfiedBy(p: PredicateData, s: Span): Verdict
    requires WellFormed(p)
  {
    var val := FieldBytes(p.field, s);
    match p.op
    case Contains => if OccursIn(p.key, val) then Satisfied else NotSatisfied
    case Equals => if val == p.key then Satisfied else NotSatisfied
    case LessThanOrEquals => if AtMost(val, p.key) then Satisfied else NotYetSatisfied
    case GreaterThanOrEquals => if Less(val, p.key) then NotSatisfied else Satisfied
    case GreaterThan => if AtMost(val, p.key) then NotYetSatisfied else Satisfied
  }

  predicate Accepts(p: PredicateData, s: Span)
    requires WellFormed(p)
  {
    SatisfiedBy(p, s) == Satisfied
  }

  predicate AcceptsAll(ps: seq<PredicateData>, s: Span)
    requires forall p :: p in ps ==> WellFormed(p)
  {
    forall p :: p in ps ==> Accepts(p, s)
  }

  // ---------------------------------------------------------------- meaning

  /** An ordered comparison of two numbers, as the operation reads. */
  predicate CompareInts(op: Op, a: int, b: int) {
    match op
    case Equals => a == b
    case LessThanOrEquals => a <= b
    case GreaterThanOrEquals => a >= b
    case GreaterThan => a > b
    case _ => false
  }

  /** The string is somewhere in the other one. */
  ghost predicate IsPart(needle: ByteString, hay: ByteString) {
    exists before, after :: hay == before + needle + after
  }

  lemma OccursIsPart(needle: ByteString, hay: ByteString)
    ensures OccursIn(needle, hay) <==> IsPart(needle, hay)
  {
    if OccursIn(needle, hay) {
      var i :| 0 <= i <= |hay| && MatchesAt(needle, hay, i);
      assert hay == hay[..i] + needle + hay[i + |needle|..];
    }
    if IsPart(needle, hay) {
      var before, after :| hay == before + needle + after;
      assert MatchesAt(needle, hay, |before|);
    }
  }

  ghost predicate CompareBytes(op: Op, a: ByteString, b: ByteString) {
    match op
    case Contains => IsPart(b, a)
    case Equals => a == b
    case LessThanOrEquals => !Less(b, a)
    case GreaterThanOrEquals => !Less(a, b)
    case GreaterThan => Less(b, a)
    case _ => false
  }

  /**
   * What a predicate says about a span: times are compared as numbers, and so is the time from
   * begin to end, reduced to an int64.
   */
  ghost predicate Holds(p: Predicate, parsers: Parsers, s: Span) {
    match p.field
    case SpanIdField => var v := parsers.spanId(p.val); v.Some? && CompareBytes(p.op, s.id, v.value)
    case Description => CompareBytes(p.op, s.data.description, p.val)
    case TracerId => CompareBytes(p.op, s.data.tracerId, p.val)
    case BeginTime => var v := parsers.int64(p.val); v.Some? && CompareInts(p.op, s.data.begin, v.value)
    case EndTime => var v := parsers.int64(p.val); v.Some? && CompareInts(p.op, s.data.end, v.value)
    case DurationField =>
      var v := parsers.int64(p.val);
      v.Some? && CompareInts(p.op, Wrap64(s.data.end - s.data.begin), v.value)
    case UnknownField(_) => false
  }

  /** Evaluating the index bytes answers the question that was asked. */
  lemma AcceptsIsHolds(p: Predicate, parsers: Parsers, s: Span)
    requires LoadPredicateData(p, parsers).Ok?
    ensures Accepts(LoadPredicateData(p, parsers).value, s) <==> Holds(p, parsers, s)
  {
    hide Less, Int64Key, OccursIn, IsPart;
    var d := LoadPredicateData(p, parsers).value;
    var val := FieldBytes(p.field, s);
    OccursIsPart(d.key, val);
    LessTotal(val, d.key);
    LessIrreflexive(val);
    if Less(val, d.key) {
      LessAsymmetric(val, d.key);
    }
    if p.field in {BeginTime, EndTime, DurationField} {
      var v := parsers.int64(p.val).value;
      var x := match p.field case BeginTime => s.data.begin case EndTime => s.data.end case _ => Duration(s);
      Int64KeyOrder(x, v);
      Int64KeyOrder(v, x);
    }
  }
}
