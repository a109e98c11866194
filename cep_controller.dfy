/**
 * `CepController::inspect`: format the code, look it up in the `ceps`
 * table, and on a miss ask the upstream service for the raw code and store
 * what it returns.
 */
module CepController {
  import opened Wrappers
  import opened CepsTable
  import opened CepModel

  // ---------------------------------------------------------------------
  // The formatter: preg_replace('/(\d{5})(\d{3})/', '$1-$2', $cep)
  // ---------------------------------------------------------------------

  /** `\d` without the Unicode flag: an ASCII decimal digit. */
  predicate IsDigit(c: char)
  {
    '0' <= c <= '9'
  }

  predicate AllDigits(s: string)
  {
    forall i :: 0 <= i < |s| ==> IsDigit(s[i])
  }

  /** The pattern matches at position `i`: eight digits start there. */
  predicate MatchAt(s: string, i: nat)
  {
    i + 8 <= |s| && AllDigits(s[i..i + 8])
  }

  /** Some position of `s` starts a run of eight digits. */
  ghost predicate HasMatch(s: string)
  {
    exists i: nat :: MatchAt(s, i)
  }

  /**
   * The replacement, scanning left to right: where eight digits start, emit
   * the first five, a hyphen and the last three, and continue after them;
   * elsewhere copy one character. This is the leftmost, non-overlapping
   * matching of a fixed-length pattern.
   */
  function Format(s: string): (r: string)
    decreases |s|
  {
    if |s| == 0 then ""
    else if MatchAt(s, 0) then s[..5] + "-" + s[5..8] + Format(s[8..])
    else [s[0]] + Format(s[1..])
  }

  /** `s` with every hyphen removed. */
  function Unhyphenated(s: string): string
  {
    if |s| == 0 then ""
    else if s[0] == '-' then Unhyphenated(s[1..])
    else [s[0]] + Unhyphenated(s[1..])
  }

  lemma {:induction false} UnhyphenatedConcat(a: string, b: string)
    ensures Unhyphenated(a + b) == Unhyphenated(a) + Unhyphenated(b)
  {
    if |a| > 0 {
      assert (a + b)[1..] == a[1..] + b;
      UnhyphenatedConcat(a[1..], b);
    } else {
      assert a + b == b;
    }
  }

  /** Exactly eight digits become `NNNNN-NNN`. */
  lemma FormatEightDigits(s: string)
    requires |s| == 8 && AllDigits(s)
    ensures Format(s) == s[..5] + "-" + s[5..]
  {
    assert s[..8] == s;
    assert s[8..] == "";
  }

  lemma FormatExample()
    ensures Format("01001000") == "01001-000"
  {
    FormatEightDigits("01001000");
  }

  /** Removing hyphens from `a-b` followed by `r` keeps `a`, `b` and `r`'s own characters. */
  lemma UnhyphenatedAroundHyphen(a: string, b: string, r: string)
    ensures Unhyphenated(a + "-" + b + r) == Unhyphenated(a) + Unhyphenated(b) + Unhyphenated(r)
  {
    assert Unhyphenated("-") == "";
    UnhyphenatedConcat(a + "-" + b, r);
    UnhyphenatedConcat(a + "-", b);
    UnhyphenatedConcat(a, "-");
  }

  /** The formatter only ever inserts hyphens: every other character is kept, in order. */
  lemma {:induction false} FormatOnlyInsertsHyphens(s: string)
    ensures Unhyphenated(Format(s)) == Unhyphenated(s)
    decreases |s|
  {
    if |s| == 0 {
    } else if MatchAt(s, 0) {
      FormatOnlyInsertsHyphens(s[8..]);
      HyphensAtMatch(s);
    } else {
      FormatOnlyInsertsHyphens(s[1..]);
      HyphensAtCopy(s);
    }
  }

  /** A match step of the formatter inserts one hyphen and keeps the eight digits. */
  lemma HyphensAtMatch(s: string)
    requires MatchAt(s, 0)
    requires Unhyphenated(Format(s[8..])) == Unhyphenated(s[8..])
    ensures Unhyphenated(Format(s)) == Unhyphenated(s)
  {
    var a, b, c := s[..5], s[5..8], s[8..];
    var r := Format(c);
    assert Format(s) == a + "-" + b + r;
    UnhyphenatedAroundHyphen(a, b, r);
    assert s == a + (b + c);
    UnhyphenatedConcat(a, b + c);
    UnhyphenatedConcat(b, c);
  }

  /** A copy step of the formatter keeps the character it copies. */
  lemma HyphensAtCopy(s: string)
    requires |s| > 0 && !MatchAt(s, 0)
    requires Unhyphenated(Format(s[1..])) == Unhyphenated(s[1..])
    ensures Unhyphenated(Format(s)) == Unhyphenated(s)
  {
    var c := s[1..];
    var r := Format(c);
    assert Format(s) == [s[0]] + r;
    UnhyphenatedConcat([s[0]], r);
    assert s == [s[0]] + c;
    UnhyphenatedConcat([s[0]], c);
  }

  lemma MatchShifts(s: string, i: nat, k: nat)
    requires k <= |s| && MatchAt(s, i + k)
    ensures MatchAt(s[k..], i)
  {
    assert s[k..][i..i + 8] == s[i + k..i + k + 8];
  }

  /** Each match inserts one character, so a string with a match always grows. */
  lemma {:induction false} FormatLength(s: string)
    ensures |Format(s)| >= |s|
    ensures HasMatch(s) ==> |Format(s)| > |s|
    decreases |s|
  {
    if |s| == 0 {
    } else if MatchAt(s, 0) {
      FormatLength(s[8..]);
    } else {
      FormatLength(s[1..]);
      if HasMatch(s) {
        var i: nat :| MatchAt(s, i);
        assert i >= 1;
        MatchShifts(s, i - 1, 1);
      }
    }
  }

  /** A string without a run of eight digits is returned unchanged. */
  lemma {:induction false} FormatNoMatch(s: string)
    requires !HasMatch(s)
    ensures Format(s) == s
    decreases |s|
  {
    if |s| > 0 {
      assert !MatchAt(s, 0);
      if HasMatch(s[1..]) {
        var i: nat :| MatchAt(s[1..], i);
        assert s[1..][i..i + 8] == s[i + 1..i + 1 + 8];
        assert MatchAt(s, i + 1);
      }
      FormatNoMatch(s[1..]);
    }
  }

  /** The formatter leaves its input unchanged exactly when no eight digits run together. */
  lemma FormatFixedIff(s: string)
    ensures Format(s) == s <==> !HasMatch(s)
  {
    FormatLength(s);
    if !HasMatch(s) {
      FormatNoMatch(s);
    }
  }

  /** An already formatted code `NNNNN-NNN` is returned unchanged. */
  lemma FormatKeepsFormatted(s: string)
    requires |s| == 9 && s[5] == '-'
    ensures Format(s) == s
  {
    assert !IsDigit(s[5]);
    FormatNoMatch(s);
  }

  /** A string shorter than eight characters, such as "123", is returned unchanged. */
  lemma FormatKeepsShort(s: string)
    requires |s| < 8
    ensures Format(s) == s
  {
    FormatNoMatch(s);
  }

  /**
   * Formatting is not idempotent: thirteen digits leave a run of eight
   * digits behind the inserted hyphen, which a second pass formats again.
   */
  lemma FormatNotIdempotent(s: string)
    requires |s| == 13 && AllDigits(s)
    ensures Format(Format(s)) != Format(s)
  {
    DigitsSlice(s, 0, 8);
    assert MatchAt(s, 0);
    FormatKeepsShort(s[8..]);
    var f := Format(s);
    assert f == s[..5] + "-" + s[5..8] + s[8..];
    assert forall i :: 6 <= i < 14 ==> f[i] == s[i - 1];
    assert f[6..14] == s[5..13];
    DigitsSlice(s, 5, 13);
    assert MatchAt(f, 6);
    FormatLength(f);
  }

  /** Every slice of a digit string is a digit string. */
  lemma DigitsSlice(s: string, i: nat, j: nat)
    requires i <= j <= |s| && AllDigits(s)
    ensures AllDigits(s[i..j])
  {
    assert forall k :: 0 <= k < j - i ==> s[i..j][k] == s[i + k];
  }

  // ---------------------------------------------------------------------
  // The lookup: inspect, getExternalCep and storeCepData
  // ---------------------------------------------------------------------

  /** What the upstream call gave back: a failed response, or a decoded JSON object. */
  datatype Upstream = Failed | Fetched(payload: Attributes)

  /** The JSON response `inspect` sends. */
  datatype Reply =
    | Record(row: Row)              // 200 with the row
    | NotFound(message: string)     // 404 with a message
    | ServerError(cause: Violation) // 500: the database refused the write

  const NotFoundMessage: string := "ZIP code not found or invalid"

  /** The message of the 404 the framework renders for an uncaught `ModelNotFoundException`. */
  const NoQueryResultsMessage: string := "No query results for model [App\\Models\\Cep]."

  function Status(r: Reply): (code: nat)
    ensures code == 200 <==> r.Record?
  {
    match r
    case Record(_) => 200
    case NotFound(_) => 404
    case ServerError(_) => 500
  }

  /** The URL `getExternalCep` requests, given the configured base URL. */
  function ExternalUrl(base: string, raw: string): (url: string)
    ensures |url| == |base| + |raw| + 10
    ensures url[..|base|] == base && url[|base| + 4..|base| + 4 + |raw|] == raw
  {
    base + "/ws/" + raw + "/json/"
  }

  /**
   * The attributes `storeCepData` writes: `cep` set to the raw input and
   * then overwritten by each key of the payload, so a `cep` in the payload
   * replaces the raw one and NULL values stay NULL.
   */
  function CepData(raw: string, payload: Attributes): (data: Attributes)
    ensures data.Keys == payload.Keys + {"cep"}
    ensures forall k :: k in payload ==> data[k] == payload[k]
    ensures "cep" !in payload ==> data["cep"] == Some(raw)
  {
    map["cep" := Some(raw)] + payload
  }

  /** The `foreach` of `storeCepData` that copies the payload over `['cep' => raw]`. */
  method BuildAttributes(raw: string, payload: Attributes) returns (data: Attributes)
    ensures data == CepData(raw, payload)
  {
    data := map["cep" := Some(raw)];
    var pending := payload.Keys;
    while pending != {}
      invariant pending <= payload.Keys
      invariant data.Keys == {"cep"} + (payload.Keys - pending)
      invariant forall k :: k in payload && k !in pending ==> data[k] == payload[k]
      invariant "cep" in pending ==> data["cep"] == Some(raw)
      invariant "cep" !in payload ==> data["cep"] == Some(raw)
      decreases pending
    {
      var key :| key in pending;
      data := data[key := payload[key]];
      pending := pending - {key};
    }
  }

  /**
   * The reply for what `storeCepData` gave back: the row, a 500 for a
   * refused statement, or the framework's 404 for `ModelNotFoundException`.
   */
  function Answer(res: Result<Row, Failure>): (r: Reply)
    ensures r.Record? <==> res.Ok?
    ensures res.Ok? ==> r.row == res.value
    ensures Status(r) == 500 <==> res.Err? && res.error.QueryFailed?
  {
    match res
    case Ok(row) => Record(row)
    case Err(QueryFailed(v)) => ServerError(v)
    case Err(NoQueryResults) => NotFound(NoQueryResultsMessage)
  }

  /**
   * What `inspect` does to a table, as a value: the reply, the URL it
   * requested upstream (none on a cache hit) and the new table.
   */
  function Inspection(t: Table, raw: string, base: string, upstream: Upstream)
    : (out: (Reply, Option<string>, Table))
    ensures out.0.NotFound? || out.0.ServerError? ==> out.2 == t
  {
    match FindByCep(t.rows, Format(raw))
    case Some(i) => (Record(t.rows[i]), None, t)
    case None =>
      var request := Some(ExternalUrl(base, raw));
      match upstream
      case Failed => (NotFound(NotFoundMessage), request, t)
      case Fetched(payload) =>
        var (res, t') := Upsert(t, raw, CepData(raw, payload));
        (Answer(res), request, t')
  }

  /**
   * A cache hit: a row whose `cep` is the formatted code is returned as it
   * is, nothing is requested upstream and the table is unchanged, whatever
   * the upstream would have answered.
   */
  lemma InspectionCacheHit(t: Table, raw: string, base: string, upstream: Upstream, i: nat)
    requires ValidTable(t) && i < |t.rows| && t.rows[i].cep == Format(raw)
    ensures Inspection(t, raw, base, upstream) == (Record(t.rows[i]), None, t)
  {
    FindByCepUnique(t.rows, Format(raw), i);
  }

  /** On a miss the upstream is asked for the raw, unformatted input. */
  lemma InspectionMissRequestsRaw(t: Table, raw: string, base: string, upstream: Upstream)
    requires forall j :: 0 <= j < |t.rows| ==> t.rows[j].cep != Format(raw)
    ensures Inspection(t, raw, base, upstream).1 == Some(base + "/ws/" + raw + "/json/")
  {
  }

  /** A failed upstream response gives 404 with the fixed message and writes nothing. */
  lemma InspectionFailure(t: Table, raw: string, base: string)
    requires forall j :: 0 <= j < |t.rows| ==> t.rows[j].cep != Format(raw)
    ensures var (reply, _, t') := Inspection(t, raw, base, Failed);
      reply == NotFound("ZIP code not found or invalid") && Status(reply) == 404 && t' == t
  {
  }

  /**
   * A successful miss with no row holding the raw code appends one row: its
   * `cep` is the payload's if it has one, else the raw input; every other
   * whitelisted column holds the payload's value, or NULL when the payload
   * lacks it; and that row is what is returned.
   */
  lemma InspectionMissStoresPayload(t: Table, raw: string, base: string, payload: Attributes)
    requires forall j :: 0 <= j < |t.rows| ==> t.rows[j].cep != Format(raw) && t.rows[j].cep != raw
    requires Inspection(t, raw, base, Fetched(payload)).0.Record?
    ensures var (reply, _, t') := Inspection(t, raw, base, Fetched(payload));
      && t'.rows == t.rows + [reply.row]
      && reply.row.id == t.nextId
      && Some(reply.row.cep) == (if "cep" in payload then payload["cep"] else Some(raw))
      && (forall c :: c != Cep ==> Column(reply.row, c) == Given(payload, c, None))
  {
    var data := CepData(raw, payload);
    CepDataColumns(raw, payload);
    UpsertCreatesOne(t, raw, data);
    var (res, t') := Upsert(t, raw, data);
    assert Inspection(t, raw, base, Fetched(payload)) == (Record(res.value), Some(ExternalUrl(base, raw)), t');
  }

  /** Read column by column, the stored attributes are the payload's, with `cep` defaulting to the raw code. */
  lemma CepDataColumns(raw: string, payload: Attributes)
    ensures Given(CepData(raw, payload), Cep, None) == if "cep" in payload then payload["cep"] else Some(raw)
    ensures forall c :: c != Cep ==> Given(CepData(raw, payload), c, None) == Given(payload, c, None)
  {
    forall c | c != Cep ensures Given(CepData(raw, payload), c, None) == Given(payload, c, None) {
      NamesDistinct(c, Cep);
    }
  }

  /**
   * After a successful miss whose payload `cep` is the formatted input, the
   * same input is a cache hit that returns the stored row and makes no
   * upstream request.
   */
  lemma InspectionRepeatHits(t: Table, raw: string, base: string, payload: Attributes, later: Upstream)
    requires ValidTable(t)
    requires forall j :: 0 <= j < |t.rows| ==> t.rows[j].cep != Format(raw)
    requires "cep" in payload && payload["cep"] == Some(Format(raw))
    requires Inspection(t, raw, base, Fetched(payload)).0.Record?
    ensures var (reply, _, t') := Inspection(t, raw, base, Fetched(payload));
      Inspection(t', raw, base, later) == (reply, None, t')
  {
    var data := CepData(raw, payload);
    UpsertKeepsValid(t, raw, data);
    UpsertWritesGivenCep(t, raw, data, Format(raw));
    var (res, t') := Upsert(t, raw, data);
    var k :| 0 <= k < |t'.rows| && t'.rows[k] == res.value;
    InspectionCacheHit(t', raw, base, later, k);
  }

  /**
   * A miss whose payload carries a `cep` another row already holds: the
   * INSERT hits the unique index, `createOrFirst` repeats the lookup by the
   * raw code, finds nothing, and the reply is the framework's 404 for a
   * missing model. Nothing is written.
   */
  lemma InspectionCreateConflict(t: Table, raw: string, base: string, payload: Attributes, other: nat, c: string)
    requires ValidTable(t)
    requires forall j :: 0 <= j < |t.rows| ==> t.rows[j].cep != Format(raw) && t.rows[j].cep != raw
    requires other < |t.rows| && t.rows[other].cep == c
    requires "cep" in payload && payload["cep"] == Some(c)
    ensures var (reply, request, t') := Inspection(t, raw, base, Fetched(payload));
      && reply == NotFound(NoQueryResultsMessage) && Status(reply) == 404
      && request == Some(ExternalUrl(base, raw)) && t' == t
  {
    UpsertRejectsDuplicateCep(t, raw, CepData(raw, payload), other, c);
  }

  /** `storeCepData`: build the attributes, then `updateOrCreate` keyed on the raw code. */
  method StoreCepData(db: CepStore, raw: string, payload: Attributes) returns (res: Result<Row, Failure>)
    requires db.Valid()
    modifies db
    ensures db.Valid()
    ensures (res, db.State()) == Upsert(old(db.State()), raw, CepData(raw, payload))
  {
    var data := BuildAttributes(raw, payload);
    res := db.UpdateOrCreate(raw, data);
  }

  /** `inspect`: returns the reply and the upstream URL it requested, if any. */
  method Inspect(db: CepStore, raw: string, base: string, upstream: Upstream)
    returns (reply: Reply, request: Option<string>)
    requires db.Valid()
    modifies db
    ensures db.Valid()
    ensures (reply, request, db.State()) == Inspection(old(db.State()), raw, base, upstream)
  {
    var formatted := Format(raw);
    var found := FindByCep(db.rows, formatted);
    if found.Some? {
      return Record(db.rows[found.value]), None;
    }
    request := Some(ExternalUrl(base, raw));
    if upstream.Failed? {
      return NotFound(NotFoundMessage), request;
    }
    var res := StoreCepData(db, raw, upstream.payload);
    if res.Err? {
      if res.error.QueryFailed? {
        return ServerError(res.error.cause), request;
      }
      return NotFound(NoQueryResultsMessage), request;
    }
    reply := Record(res.value);
  }

  // ---------------------------------------------------------------------
  // The scenarios of the feature tests
  // ---------------------------------------------------------------------

  /** A seeded `12345-678` is returned as stored, without an upstream request. */
  lemma ExistingCepIsReturned(base: string, upstream: Upstream)
    ensures var row := Row(1, "12345-678", Some("Rua Teste"), None, None, Some("Centro"),
                           Some("Cidade"), Some("SP"), None, None, None, None, None, None);
      Inspection(Table([row], 2), "12345-678", base, upstream) == (Record(row), None, Table([row], 2))
  {
    var row := Row(1, "12345-678", Some("Rua Teste"), None, None, Some("Centro"),
                   Some("Cidade"), Some("SP"), None, None, None, None, None, None);
    FormatKeepsFormatted("12345-678");
    InspectionCacheHit(Table([row], 2), "12345-678", base, upstream, 0);
  }

  /** On an empty table any payload that carries a non-NULL `cep` is stored. */
  lemma MissOnEmptyTableStores(raw: string, base: string, payload: Attributes)
    requires "cep" in payload && payload["cep"].Some?
    ensures Inspection(Table([], 1), raw, base, Fetched(payload)).0.Record?
    ensures var (reply, _, t') := Inspection(Table([], 1), raw, base, Fetched(payload));
      reply.Record? && reply.row in t'.rows
  {
    EmptyTableAcceptsAnyCep(raw, CepData(raw, payload));
  }

  /**
   * An unseen `01001000` is requested raw, and the payload's `01001-000`
   * is what is stored and returned, with the payload's street.
   */
  lemma FetchedCepIsStored(base: string, raw: string, payload: Attributes)
    requires raw == "01001000"
    requires payload == map["cep" := Some("01001-000"), "logradouro" := Some("Praça da Sé"),
                            "bairro" := Some("Sé"), "localidade" := Some("São Paulo"), "uf" := Some("SP")]
    ensures var (reply, request, t') := Inspection(Table([], 1), raw, base, Fetched(payload));
      && request == Some(base + "/ws/" + "01001000" + "/json/")
      && reply.Record? && reply.row.cep == "01001-000" && reply.row.logradouro == Some("Praça da Sé")
      && t'.rows == [reply.row]
  {
    var t := Table([], 1);
    MissOnEmptyTableStores(raw, base, payload);
    InspectionMissStoresPayload(t, raw, base, payload);
    var out := Inspection(t, raw, base, Fetched(payload));
    assert Column(out.0.row, Logradouro) == Given(payload, Logradouro, None);
  }

  /** A failed upstream answer for `00000000` is a 404 with the fixed message. */
  lemma FailedCepIsNotFound(base: string)
    ensures Inspection(Table([], 1), "00000000", base, Failed).0 == NotFound("ZIP code not found or invalid")
    ensures Status(Inspection(Table([], 1), "00000000", base, Failed).0) == 404
  {
  }
}
