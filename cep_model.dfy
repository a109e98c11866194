/**
 * The `Cep` model: its mass-assignment whitelist, the `where('cep', …)->first()`
 * query, and `updateOrCreate`, which looks a row up by `cep` and either fills
 * and updates it or creates a new one.
 */
module CepModel {
  import opened Wrappers
  import opened CepsTable

  /** The `$fillable` whitelist, in the order the model lists it. */
  const Fillable: seq<string> := [
    "cep", "logradouro", "complemento", "unidade", "bairro", "localidade",
    "uf", "estado", "regiao", "ibge", "gia", "ddd", "siafi"]

  /** Mass assignment: keys outside the whitelist are discarded silently. */
  function FillFilter(a: Attributes): (f: Attributes)
    ensures f.Keys <= a.Keys
    ensures forall k :: k in f ==> f[k] == a[k]
  {
    map k | k in a && k in Fillable :: a[k]
  }

  /** A key survives the filter exactly when it is given and whitelisted. */
  lemma FillFilterKeys(a: Attributes)
    ensures forall k :: k in FillFilter(a) <==> k in a && k in Fillable
  {
  }

  /** The whitelist is exactly the set of writable columns of the table. */
  lemma FillableIsDataColumns()
    ensures forall k :: k in Fillable <==> k in DataColumns
    ensures |Fillable| == 13
  {
  }

  /** What survives the filter can always be written: no missing column is named. */
  lemma FilteredKeysAreColumns(a: Attributes)
    ensures FillFilter(a).Keys <= DataColumns
  {
    FillFilterKeys(a);
    FillableIsDataColumns();
  }

  /** Every column survives the filter: filling a column reads the value given for it. */
  lemma FilterKeepsColumns(a: Attributes)
    ensures forall c, prior :: Given(FillFilter(a), c, prior) == Given(a, c, prior)
  {
    FillFilterKeys(a);
    FillableIsDataColumns();
  }

  /** `where('cep', key)->first()` from index `from` on: the first row holding `key`. */
  function FindFrom(rows: seq<Row>, key: string, from: nat): (r: Option<nat>)
    requires from <= |rows|
    ensures r.Some? ==> from <= r.value < |rows| && rows[r.value].cep == key
    ensures r.Some? ==> forall j :: from <= j < r.value ==> rows[j].cep != key
    ensures r.None? <==> forall j :: from <= j < |rows| ==> rows[j].cep != key
    decreases |rows| - from
  {
    if from == |rows| then None
    else if rows[from].cep == key then Some(from)
    else FindFrom(rows, key, from + 1)
  }

  function FindByCep(rows: seq<Row>, key: string): (r: Option<nat>)
    ensures r.Some? ==> r.value < |rows| && rows[r.value].cep == key
    ensures r.Some? ==> forall j :: 0 <= j < r.value ==> rows[j].cep != key
    ensures r.None? <==> forall j :: 0 <= j < |rows| ==> rows[j].cep != key
  {
    FindFrom(rows, key, 0)
  }

  /** Under the unique index the row found is the only row holding the key. */
  lemma FindByCepUnique(rows: seq<Row>, key: string, i: nat)
    requires UniqueCeps(rows) && i < |rows| && rows[i].cep == key
    ensures FindByCep(rows, key) == Some(i)
  {
  }

  /**
   * Why `updateOrCreate` gives no row: the database refused a statement, or
   * the create hit the unique index and the lookup `createOrFirst` then
   * repeats, `where('cep', key)->firstOrFail()`, found no row and threw
   * `ModelNotFoundException`.
   */
  datatype Failure = QueryFailed(cause: Violation) | NoQueryResults

  /**
   * What the create path makes of a refused INSERT: a unique violation is
   * caught and the lookup by `key` is repeated, which finds nothing because
   * the first lookup found nothing and the refused INSERT wrote nothing;
   * any other refusal propagates.
   */
  function CreateFailure(v: Violation): (f: Failure)
    ensures f == NoQueryResults <==> v.UniqueViolation?
    ensures f.QueryFailed? ==> f.cause == v
  {
    if v.UniqueViolation? then NoQueryResults else QueryFailed(v)
  }

  /**
   * `Cep::updateOrCreate(['cep' => key], values)`: when a row holds `key`,
   * the whitelisted `values` are filled into it and saved; otherwise a new
   * model is created from `['cep' => key]` merged with `values` (a `cep`
   * in `values` wins), filtered by the whitelist. The table is returned
   * unchanged whenever the database refuses the write.
   */
  function Upsert(t: Table, key: string, values: Attributes): (out: (Result<Row, Failure>, Table))
    ensures out.0.Err? ==> out.1 == t
    ensures out.0.Ok? ==> out.0.value in out.1.rows
    ensures out.0 == Err(NoQueryResults) ==> FindByCep(out.1.rows, key).None?
  {
    match FindByCep(t.rows, key)
    case Some(i) =>
      var filled := FillFilter(values);
      FilteredKeysAreColumns(values);
      var written := UpdateRow(t, i, filled);
      if written.Err? then (Err(QueryFailed(written.error)), t)
      else
        assert written.value.1.rows[i] == written.value.0;
        (Ok(written.value.0), written.value.1)
    case None =>
      var filled := FillFilter(Merged(key, values));
      FilteredKeysAreColumns(Merged(key, values));
      var written := Insert(t, filled);
      if written.Err? then (Err(CreateFailure(written.error)), t)
      else
        assert written.value.1.rows[|t.rows|] == written.value.0;
        (Ok(written.value.0), written.value.1)
  }

  /** A row holding `key` is updated in place: same id, same position, others untouched. */
  lemma {:induction false} UpsertUpdatesInPlace(t: Table, key: string, values: Attributes, i: nat)
    requires ValidTable(t) && i < |t.rows| && t.rows[i].cep == key
    requires Upsert(t, key, values).0.Ok?
    ensures var (res, t') := Upsert(t, key, values);
      && |t'.rows| == |t.rows| && t'.nextId == t.nextId
      && t'.rows[i] == res.value && res.value.id == t.rows[i].id
      && (forall j :: 0 <= j < |t.rows| && j != i ==> t'.rows[j] == t.rows[j])
      && (forall c :: Column(res.value, c) == Given(values, c, Column(t.rows[i], c)))
  {
    FindByCepUnique(t.rows, key, i);
    FilteredKeysAreColumns(values);
    UpdateColumns(t, i, FillFilter(values));
    FilterKeepsColumns(values);
  }

  /** The attributes `updateOrCreate` inserts under `key` when no row holds it. */
  function Merged(key: string, values: Attributes): (m: Attributes)
    ensures Given(m, Cep, None) == if "cep" in values then values["cep"] else Some(key)
    ensures forall c :: c != Cep ==> Given(m, c, None) == Given(values, c, None)
  {
    forall c | c != Cep ensures Name(c) != "cep" {
      NamesDistinct(c, Cep);
    }
    map["cep" := Some(key)] + values
  }

  /** With no row holding `key`, the upsert is the insert of the filtered, merged attributes. */
  lemma UpsertInserts(t: Table, key: string, values: Attributes)
    requires forall j :: 0 <= j < |t.rows| ==> t.rows[j].cep != key
    requires Upsert(t, key, values).0.Ok?
    ensures FillFilter(Merged(key, values)).Keys <= DataColumns
    ensures Insert(t, FillFilter(Merged(key, values))).Ok?
    ensures var inserted := Insert(t, FillFilter(Merged(key, values))).value;
      Upsert(t, key, values) == (Ok(inserted.0), inserted.1)
  {
    FilteredKeysAreColumns(Merged(key, values));
  }

  /**
   * With no row holding `key`, exactly one row is appended under the next
   * id; its `cep` is the one in `values` if given, else `key`, and every
   * descriptive column not given is NULL.
   */
  lemma {:induction false} UpsertCreatesOne(t: Table, key: string, values: Attributes)
    requires forall j :: 0 <= j < |t.rows| ==> t.rows[j].cep != key
    requires Upsert(t, key, values).0.Ok?
    ensures var (res, t') := Upsert(t, key, values);
      && t'.rows == t.rows + [res.value]
      && t'.nextId == t.nextId + 1
      && res.value.id == t.nextId
      && Some(res.value.cep) == (if "cep" in values then values["cep"] else Some(key))
      && (forall c :: c != Cep ==> Column(res.value, c) == Given(values, c, None))
  {
    var merged := Merged(key, values);
    UpsertInserts(t, key, values);
    InsertColumns(t, FillFilter(merged));
    FilterKeepsColumns(merged);
  }

  /** An accepted upsert whose `values` give a `cep` stores that `cep`, update or insert alike. */
  lemma UpsertWritesGivenCep(t: Table, key: string, values: Attributes, c: string)
    requires ValidTable(t)
    requires "cep" in values && values["cep"] == Some(c)
    requires Upsert(t, key, values).0.Ok?
    ensures var (res, t') := Upsert(t, key, values);
      res.value.cep == c && res.value in t'.rows
  {
    var row := Upsert(t, key, values).0.value;
    match FindByCep(t.rows, key)
    case Some(i) =>
      UpsertUpdatesInPlace(t, key, values, i);
      assert Column(row, Cep) == Given(values, Cep, Column(t.rows[i], Cep));
    case None =>
      UpsertCreatesOne(t, key, values);
  }

  /** An empty table accepts any upsert that ends with a non-NULL `cep`. */
  lemma EmptyTableAcceptsAnyCep(key: string, values: Attributes)
    requires "cep" in values ==> values["cep"].Some?
    ensures Upsert(Table([], 1), key, values).0.Ok?
  {
    var merged := Merged(key, values);
    FilteredKeysAreColumns(merged);
    FilterKeepsColumns(merged);
    assert Given(FillFilter(merged), Cep, None).Some?;
  }

  /** Whatever happens the table grows by at most one row. */
  lemma UpsertGrowsByAtMostOne(t: Table, key: string, values: Attributes)
    ensures |t.rows| <= |Upsert(t, key, values).1.rows| <= |t.rows| + 1
  {
  }

  /** An accepted upsert keeps `cep` unique and the ids distinct. */
  lemma UpsertKeepsValid(t: Table, key: string, values: Attributes)
    requires ValidTable(t)
    ensures ValidTable(Upsert(t, key, values).1)
  {
    match FindByCep(t.rows, key)
    case Some(i) =>
      FilteredKeysAreColumns(values);
      if UpdateRow(t, i, FillFilter(values)).Ok? {
        UpdateKeepsValid(t, i, FillFilter(values));
      }
    case None =>
      var merged := FillFilter(Merged(key, values));
      FilteredKeysAreColumns(Merged(key, values));
      if Insert(t, merged).Ok? {
        InsertKeepsValid(t, merged);
      }
  }

  /**
   * Keys outside the whitelist never reach the row: an upsert with extra
   * keys does exactly what it does without them.
   */
  lemma UpsertIgnoresUnfillable(t: Table, key: string, values: Attributes, extra: Attributes)
    requires forall k :: k in extra ==> k !in Fillable
    ensures Upsert(t, key, values + extra) == Upsert(t, key, values)
  {
    FillFilterAgrees(values + extra, values);
    FillFilterAgrees(Merged(key, values + extra), Merged(key, values));
  }

  /** Two attribute maps that agree on the whitelist fill the same. */
  lemma FillFilterAgrees(a: Attributes, b: Attributes)
    requires forall k :: k in Fillable ==> (k in a <==> k in b)
    requires forall k :: k in Fillable && k in a ==> a[k] == b[k]
    ensures FillFilter(a) == FillFilter(b)
  {
    var l, r := FillFilter(a), FillFilter(b);
    FillFilterKeys(a);
    FillFilterKeys(b);
    assert l.Keys == r.Keys;
  }

  /**
   * A `cep` that another row already holds is refused by the unique index,
   * whether the write is an update or an insert, and nothing is written.
   * The UPDATE's refusal propagates; the INSERT's is caught, and the
   * repeated lookup finding no row is what is reported.
   */
  lemma UpsertRejectsDuplicateCep(t: Table, key: string, values: Attributes, other: nat, c: string)
    requires ValidTable(t) && other < |t.rows| && t.rows[other].cep == c && c != key
    requires "cep" in values && values["cep"] == Some(c)
    ensures Upsert(t, key, values).1 == t
    ensures Upsert(t, key, values).0 ==
      if FindByCep(t.rows, key).Some? then Err(QueryFailed(UniqueViolation(c))) else Err(NoQueryResults)
  {
    match FindByCep(t.rows, key)
    case Some(i) =>
      assert i != other;
      assert CepTaken(t.rows, c, i);
    case None =>
      var merged := Merged(key, values);
      assert FillFilter(merged)["cep"] == Some(c);
      assert CepTaken(t.rows, c, -1);
  }

  /**
   * Because the lookup is by `key` while the written `cep` comes from
   * `values`, repeating an upsert whose `cep` differs from `key` does not
   * find the row it wrote the first time: the second one tries an insert,
   * the unique index refuses it, and the repeated lookup by `key` finds no
   * row.
   */
  lemma UpsertRepeatIsRejected(t: Table, key: string, values: Attributes, c: string)
    requires ValidTable(t) && (forall j :: 0 <= j < |t.rows| ==> t.rows[j].cep != key)
    requires "cep" in values && values["cep"] == Some(c) && c != key
    requires Upsert(t, key, values).0.Ok?
    ensures var t' := Upsert(t, key, values).1;
      Upsert(t', key, values) == (Err(NoQueryResults), t')
  {
    UpsertCreatesOne(t, key, values);
    UpsertKeepsValid(t, key, values);
    var t' := Upsert(t, key, values).1;
    assert forall j :: 0 <= j < |t'.rows| ==> t'.rows[j].cep != key by {
      assert t'.rows[|t.rows|].cep == c;
    }
    UpsertRejectsDuplicateCep(t', key, values, |t.rows|, c);
  }

  /**
   * The `ceps` table as the application sees it. `updateOrCreate` changes
   * it in place.
   */
  class CepStore {
    var rows: seq<Row>
    var nextId: nat

    ghost predicate Valid()
      reads this
    {
      ValidTable(Table(rows, nextId))
    }

    function State(): Table
      reads this
    {
      Table(rows, nextId)
    }

    constructor ()
      ensures Valid() && rows == [] && nextId == 1
    {
      rows := [];
      nextId := 1;
    }

    /** `Cep::updateOrCreate(['cep' => key], values)`. */
    method UpdateOrCreate(key: string, values: Attributes) returns (res: Result<Row, Failure>)
      requires Valid()
      modifies this
      ensures Valid()
      ensures (res, State()) == Upsert(old(State()), key, values)
    {
      UpsertKeepsValid(State(), key, values);
      var found := FindByCep(rows, key);
      if found.Some? {
        var filled := FillFilter(values);
        FilteredKeysAreColumns(values);
        var written := UpdateRow(State(), found.value, filled);
        if written.Err? {
          return Err(QueryFailed(written.error));
        }
        rows := written.value.1.rows;
        res := Ok(written.value.0);
      } else {
        var merged := Merged(key, values);
        var filled := FillFilter(merged);
        FilteredKeysAreColumns(merged);
        var written := Insert(State(), filled);
        if written.Err? {
          return Err(CreateFailure(written.error));
        }
        rows, nextId := written.value.1.rows, written.value.1.nextId;
        res := Ok(written.value.0);
      }
    }
  }
}
