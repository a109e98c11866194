/**
 * The `ceps` table as the migration declares it: an auto-incremented `id`,
 * a unique non-null `cep`, twelve nullable descriptive string columns and
 * the two timestamps. The writes below are what the database itself does
 * with an INSERT or an UPDATE of a set of columns: it fills unspecified
 * nullable columns with NULL, and rejects a NULL `cep` or a `cep` that
 * another row already holds.
 */
module CepsTable {
  import opened Wrappers

  /** Column values handed to a write: column name to a string or NULL. */
  type Attributes = map<string, Option<string>>

  datatype Row = Row(
    id: nat,
    cep: string,
    logradouro: Option<string>,
    complemento: Option<string>,
    unidade: Option<string>,
    bairro: Option<string>,
    localidade: Option<string>,
    uf: Option<string>,
    estado: Option<string>,
    regiao: Option<string>,
    ibge: Option<string>,
    gia: Option<string>,
    ddd: Option<string>,
    siafi: Option<string>)

  /** The rows in insertion order and the next auto-increment value. */
  datatype Table = Table(rows: seq<Row>, nextId: nat)

  /** Why the database refused a write. */
  datatype Violation = NotNullViolation(column: string) | UniqueViolation(cep: string)

  /** Every column, in the order the migration declares them. */
  const Columns: seq<string> := [
    "id", "cep", "logradouro", "complemento", "unidade", "bairro", "localidade",
    "uf", "estado", "regiao", "ibge", "gia", "ddd", "siafi", "created_at", "updated_at"]

  /** The columns a write may set: all but `id` and the timestamps. */
  const DataColumns: set<string> := {
    "cep", "logradouro", "complemento", "unidade", "bairro", "localidade",
    "uf", "estado", "regiao", "ibge", "gia", "ddd", "siafi"}

  /** The data columns, one constructor each; all but `Cep` are nullable. */
  datatype Col =
    | Cep | Logradouro | Complemento | Unidade | Bairro | Localidade
    | Uf | Estado | Regiao | Ibge | Gia | Ddd | Siafi

  function Name(c: Col): (n: string)
    ensures n in DataColumns
  {
    match c
    case Cep => "cep"
    case Logradouro => "logradouro"
    case Complemento => "complemento"
    case Unidade => "unidade"
    case Bairro => "bairro"
    case Localidade => "localidade"
    case Uf => "uf"
    case Estado => "estado"
    case Regiao => "regiao"
    case Ibge => "ibge"
    case Gia => "gia"
    case Ddd => "ddd"
    case Siafi => "siafi"
  }

  /** Every data column has a constructor. */
  lemma EveryDataColumnNamed(n: string)
    requires n in DataColumns
    ensures exists c :: Name(c) == n
  {
    assert Name(Cep) == "cep" && Name(Logradouro) == "logradouro" && Name(Complemento) == "complemento";
    assert Name(Unidade) == "unidade" && Name(Bairro) == "bairro" && Name(Localidade) == "localidade";
    assert Name(Uf) == "uf" && Name(Estado) == "estado" && Name(Regiao) == "regiao";
    assert Name(Ibge) == "ibge" && Name(Gia) == "gia" && Name(Ddd) == "ddd" && Name(Siafi) == "siafi";
  }

  /** Distinct constructors name distinct columns. */
  lemma NamesDistinct(c: Col, d: Col)
    requires c != d
    ensures Name(c) != Name(d)
  {
  }

  /** The value a row holds in a data column (`cep` is never NULL). */
  function Column(r: Row, c: Col): Option<string>
  {
    match c
    case Cep => Some(r.cep)
    case Logradouro => r.logradouro
    case Complemento => r.complemento
    case Unidade => r.unidade
    case Bairro => r.bairro
    case Localidade => r.localidade
    case Uf => r.uf
    case Estado => r.estado
    case Regiao => r.regiao
    case Ibge => r.ibge
    case Gia => r.gia
    case Ddd => r.ddd
    case Siafi => r.siafi
  }

  /** The value given for column `c` if there is one, else `prior`. */
  function Given(a: Attributes, c: Col, prior: Option<string>): Option<string>
  {
    if Name(c) in a then a[Name(c)] else prior
  }

  /**
   * `prior` with every column named in `a` overwritten. A NULL given for
   * `cep` leaves it as it was: the callers reject that case first.
   */
  function Assign(prior: Row, a: Attributes): (r: Row)
    ensures r.id == prior.id
    ensures r.cep == if "cep" in a && a["cep"].Some? then a["cep"].value else prior.cep
  {
    Row(prior.id,
        if "cep" in a && a["cep"].Some? then a["cep"].value else prior.cep,
        Given(a, Logradouro, prior.logradouro),
        Given(a, Complemento, prior.complemento),
        Given(a, Unidade, prior.unidade),
        Given(a, Bairro, prior.bairro),
        Given(a, Localidade, prior.localidade),
        Given(a, Uf, prior.uf),
        Given(a, Estado, prior.estado),
        Given(a, Regiao, prior.regiao),
        Given(a, Ibge, prior.ibge),
        Given(a, Gia, prior.gia),
        Given(a, Ddd, prior.ddd),
        Given(a, Siafi, prior.siafi))
  }

  /** A row with the given key and `cep` and NULL in every nullable column. */
  function EmptyRow(id: nat, cep: string): (r: Row)
    ensures r.id == id && r.cep == cep
    ensures forall c :: c != Cep ==> Column(r, c).None?
  {
    Row(id, cep, None, None, None, None, None, None, None, None, None, None, None, None)
  }

  /** Each column of the assigned row is the value given for it, else its prior value. */
  lemma AssignColumns(prior: Row, a: Attributes)
    requires "cep" in a ==> a["cep"].Some?
    ensures forall c :: Column(Assign(prior, a), c) == Given(a, c, Column(prior, c))
  {
    var r := Assign(prior, a);
    forall c ensures Column(r, c) == Given(a, c, Column(prior, c)) {
      match c
      case Cep =>
      case _ =>
    }
  }

  /** Some row other than the one at index `skip` holds `cep`. */
  predicate CepTaken(rows: seq<Row>, cep: string, skip: int)
  {
    exists j :: 0 <= j < |rows| && j != skip && rows[j].cep == cep
  }

  /** The unique index on `cep`. */
  ghost predicate UniqueCeps(rows: seq<Row>)
  {
    forall i, j :: 0 <= i < |rows| && 0 <= j < |rows| && i != j ==> rows[i].cep != rows[j].cep
  }

  /** The auto-increment key: distinct ids, all below the next one handed out. */
  ghost predicate IdsBelow(rows: seq<Row>, nextId: nat)
  {
    forall i :: 0 <= i < |rows| ==> rows[i].id < nextId
  }

  ghost predicate UniqueIds(rows: seq<Row>)
  {
    forall i, j :: 0 <= i < |rows| && 0 <= j < |rows| && i != j ==> rows[i].id != rows[j].id
  }

  ghost predicate ValidTable(t: Table)
  {
    UniqueCeps(t.rows) && UniqueIds(t.rows) && IdsBelow(t.rows, t.nextId)
  }

  /**
   * INSERT of the columns in `a`: the row takes the next id, every nullable
   * column not given is NULL, and the write is refused when `cep` is missing
   * or NULL or already held by a row.
   */
  function Insert(t: Table, a: Attributes): (res: Result<(Row, Table), Violation>)
    requires a.Keys <= DataColumns
    ensures res.Err? <==> ("cep" !in a || a["cep"].None? || CepTaken(t.rows, a["cep"].value, -1))
    ensures res.Ok? ==>
      var (row, t') := res.value;
      && row == Assign(EmptyRow(t.nextId, a["cep"].value), a)
      && t' == Table(t.rows + [row], t.nextId + 1)
  {
    if "cep" !in a || a["cep"].None? then
      Err(NotNullViolation("cep"))
    else
      var row := Assign(EmptyRow(t.nextId, a["cep"].value), a);
      if CepTaken(t.rows, row.cep, -1) then Err(UniqueViolation(row.cep))
      else Ok((row, Table(t.rows + [row], t.nextId + 1)))
  }

  /**
   * UPDATE of the row at index `i` with the columns in `a`: columns not
   * given keep their values, and the write is refused when `cep` is set to
   * NULL or to a value another row holds.
   */
  function UpdateRow(t: Table, i: nat, a: Attributes): (res: Result<(Row, Table), Violation>)
    requires i < |t.rows| && a.Keys <= DataColumns
    ensures res.Err? <==>
      ("cep" in a && (a["cep"].None? || CepTaken(t.rows, a["cep"].value, i)))
    ensures res.Ok? ==>
      var (row, t') := res.value;
      && row == Assign(t.rows[i], a)
      && t' == Table(t.rows[i := row], t.nextId)
  {
    if "cep" in a && a["cep"].None? then
      Err(NotNullViolation("cep"))
    else
      var row := Assign(t.rows[i], a);
      if "cep" in a && CepTaken(t.rows, row.cep, i) then Err(UniqueViolation(row.cep))
      else Ok((row, Table(t.rows[i := row], t.nextId)))
  }

  /**
   * An inserted row takes the next id and holds exactly the values given,
   * with NULL in every nullable column not given.
   */
  lemma InsertColumns(t: Table, a: Attributes)
    requires a.Keys <= DataColumns && Insert(t, a).Ok?
    ensures var row := Insert(t, a).value.0;
      && row.id == t.nextId
      && forall c :: Column(row, c) == Given(a, c, None)
  {
    AssignColumns(EmptyRow(t.nextId, a["cep"].value), a);
  }

  /** An updated row keeps its id, holds the values given and keeps every other column. */
  lemma UpdateColumns(t: Table, i: nat, a: Attributes)
    requires i < |t.rows| && a.Keys <= DataColumns && UpdateRow(t, i, a).Ok?
    ensures var row := UpdateRow(t, i, a).value.0;
      && row.id == t.rows[i].id
      && forall c :: Column(row, c) == Given(a, c, Column(t.rows[i], c))
  {
    AssignColumns(t.rows[i], a);
  }

  /** An accepted INSERT keeps the unique index and the key discipline. */
  lemma InsertKeepsValid(t: Table, a: Attributes)
    requires ValidTable(t) && a.Keys <= DataColumns && Insert(t, a).Ok?
    ensures ValidTable(Insert(t, a).value.1)
  {
    var (row, t') := Insert(t, a).value;
    assert !CepTaken(t.rows, row.cep, -1);
    forall i | 0 <= i < |t.rows| ensures t.rows[i].cep != row.cep && t.rows[i].id != row.id {
      assert t.rows[i].id < t.nextId;
    }
  }

  /** An accepted UPDATE keeps the unique index and the key discipline. */
  lemma UpdateKeepsValid(t: Table, i: nat, a: Attributes)
    requires ValidTable(t) && i < |t.rows| && a.Keys <= DataColumns && UpdateRow(t, i, a).Ok?
    ensures ValidTable(UpdateRow(t, i, a).value.1)
  {
    var (row, t') := UpdateRow(t, i, a).value;
    if "cep" in a {
      assert !CepTaken(t.rows, row.cep, i);
    }
    forall j | 0 <= j < |t.rows| && j != i ensures t.rows[j].cep != row.cep {
    }
  }

  /** The data columns are the whole table except the key and the timestamps. */
  lemma DataColumnsAreColumns()
    ensures (set k | k in Columns) == DataColumns + {"id", "created_at", "updated_at"}
  {
  }
}
