/**
 * The favourites of a user: the `cep_user_pivot` table read by both
 * `User::ceps` and `Cep::users`, with the `nickname` pivot column and the
 * pivot timestamps, and the `attach`/`detach` calls `User` makes on it.
 */
module UserModel {
  import opened CepsTable

  /** One row of `cep_user_pivot`. */
  datatype PivotRow = PivotRow(userId: nat, cepId: nat, nickname: string, createdAt: nat, updatedAt: nat)

  /** `User::ceps`: the pivot rows of user `u`, listed in insertion order. */
  function Ceps(rows: seq<PivotRow>, u: nat): (r: seq<PivotRow>)
    ensures forall p :: p in r <==> p in rows && p.userId == u
    ensures |r| <= |rows|
  {
    if rows == [] then []
    else if rows[0].userId == u then [rows[0]] + Ceps(rows[1..], u)
    else Ceps(rows[1..], u)
  }

  /** `Cep::users`: the pivot rows of record `c`, listed in insertion order. */
  function Users(rows: seq<PivotRow>, c: nat): (r: seq<PivotRow>)
    ensures forall p :: p in r <==> p in rows && p.cepId == c
    ensures |r| <= |rows|
  {
    if rows == [] then []
    else if rows[0].cepId == c then [rows[0]] + Users(rows[1..], c)
    else Users(rows[1..], c)
  }

  /** `isFavorite`: record `c` is among the records of `u`'s `ceps` relation. */
  predicate IsFavoriteIn(rows: seq<PivotRow>, u: nat, c: nat)
  {
    exists p :: p in Ceps(rows, u) && p.cepId == c
  }

  /** Both relations read the same table: `u` has `c` exactly when `c` has `u`. */
  lemma RelationsAgree(rows: seq<PivotRow>, u: nat, c: nat)
    ensures IsFavoriteIn(rows, u, c) <==> exists p :: p in Users(rows, c) && p.userId == u
  {
  }

  /** `isFavorite` holds exactly when some pivot row joins the pair. */
  lemma IsFavoriteIffRow(rows: seq<PivotRow>, u: nat, c: nat)
    ensures IsFavoriteIn(rows, u, c) <==> exists i :: 0 <= i < |rows| && rows[i].userId == u && rows[i].cepId == c
  {
    if IsFavoriteIn(rows, u, c) {
      var p :| p in Ceps(rows, u) && p.cepId == c;
      var i :| 0 <= i < |rows| && rows[i] == p;
    }
  }

  /** The number of pivot rows joining user `u` and record `c`. */
  function PairCount(rows: seq<PivotRow>, u: nat, c: nat): (n: nat)
    ensures n <= |rows|
    ensures n == 0 <==> !IsFavoriteIn(rows, u, c)
  {
    if rows == [] then 0
    else (if rows[0].userId == u && rows[0].cepId == c then 1 else 0) + PairCount(rows[1..], u, c)
  }

  /** The table after `detach` of record `c` for user `u`: every row of the pair removed. */
  function Without(rows: seq<PivotRow>, u: nat, c: nat): (r: seq<PivotRow>)
    ensures forall p :: p in r <==> p in rows && !(p.userId == u && p.cepId == c)
    ensures |r| == |rows| - PairCount(rows, u, c)
  {
    if rows == [] then []
    else if rows[0].userId == u && rows[0].cepId == c then Without(rows[1..], u, c)
    else [rows[0]] + Without(rows[1..], u, c)
  }

  lemma {:induction false} CepsAppend(rows: seq<PivotRow>, p: PivotRow, u: nat)
    ensures Ceps(rows + [p], u) == Ceps(rows, u) + (if p.userId == u then [p] else [])
  {
    if rows != [] {
      assert (rows + [p])[1..] == rows[1..] + [p];
      CepsAppend(rows[1..], p, u);
    }
  }

  /**
   * Attaching appends the pivot row with the nickname as given: it becomes
   * the last of `u`'s favourites, and every other user's favourites stay as
   * they were.
   */
  lemma AttachEffect(rows: seq<PivotRow>, u: nat, c: nat, nickname: string, now: nat)
    ensures var rows' := rows + [PivotRow(u, c, nickname, now, now)];
      && Ceps(rows', u) == Ceps(rows, u) + [PivotRow(u, c, nickname, now, now)]
      && IsFavoriteIn(rows', u, c)
      && forall v :: v != u ==> Ceps(rows', v) == Ceps(rows, v)
  {
    var p := PivotRow(u, c, nickname, now, now);
    CepsAppend(rows, p, u);
    forall v | v != u ensures Ceps(rows + [p], v) == Ceps(rows, v) {
      CepsAppend(rows, p, v);
    }
  }

  /** No duplicate check: attaching an existing favourite adds a second row for the pair. */
  lemma {:induction false} AttachDuplicates(rows: seq<PivotRow>, u: nat, c: nat, nickname: string, now: nat)
    ensures PairCount(rows + [PivotRow(u, c, nickname, now, now)], u, c) == PairCount(rows, u, c) + 1
  {
    if rows != [] {
      assert (rows + [PivotRow(u, c, nickname, now, now)])[1..] == rows[1..] + [PivotRow(u, c, nickname, now, now)];
      AttachDuplicates(rows[1..], u, c, nickname, now);
    }
  }

  /** After detaching, the record is no longer a favourite of the user. */
  lemma DetachRemovesFavorite(rows: seq<PivotRow>, u: nat, c: nat)
    ensures !IsFavoriteIn(Without(rows, u, c), u, c)
  {
  }

  /** Detaching a record that is not a favourite changes nothing. */
  lemma {:induction false} DetachNotFavorite(rows: seq<PivotRow>, u: nat, c: nat)
    requires !IsFavoriteIn(rows, u, c)
    ensures Without(rows, u, c) == rows
  {
    if rows != [] {
      assert PairCount(rows[1..], u, c) == 0;
      DetachNotFavorite(rows[1..], u, c);
    }
  }

  /**
   * Detaching touches only the pair: other users' favourites are unchanged,
   * and the user keeps every other favourite, in order.
   */
  lemma {:induction false} DetachOthersUnchanged(rows: seq<PivotRow>, u: nat, c: nat)
    ensures forall v :: v != u ==> Ceps(Without(rows, u, c), v) == Ceps(rows, v)
    ensures Ceps(Without(rows, u, c), u) == Without(Ceps(rows, u), u, c)
  {
    if rows != [] {
      DetachOthersUnchanged(rows[1..], u, c);
    }
  }

  /** The pivot table, changed in place by `attach` and `detach`. */
  class CepUserPivot {
    var rows: seq<PivotRow>

    constructor ()
      ensures rows == []
    {
      rows := [];
    }

    /** `attach`: one INSERT, made without looking for an existing row. */
    method Attach(u: nat, c: nat, nickname: string, now: nat)
      modifies this
      ensures rows == old(rows) + [PivotRow(u, c, nickname, now, now)]
    {
      rows := rows + [PivotRow(u, c, nickname, now, now)];
    }

    /** `detach`: DELETE of every row of the pair; returns how many went. */
    method Detach(u: nat, c: nat) returns (deleted: nat)
      modifies this
      ensures rows == Without(old(rows), u, c)
      ensures deleted == PairCount(old(rows), u, c) == |old(rows)| - |rows|
    {
      deleted := PairCount(rows, u, c);
      rows := Without(rows, u, c);
    }
  }

  /** A user, as far as favourites go: only its key is used. */
  class User {
    const id: nat

    constructor (id: nat)
      ensures this.id == id
    {
      this.id := id;
    }

    /** `ceps`: this user's records with their pivot columns. */
    function CepsOf(pivot: CepUserPivot): (r: seq<PivotRow>)
      reads pivot
      ensures forall p :: p in r <==> p in pivot.rows && p.userId == id
    {
      Ceps(pivot.rows, id)
    }

    /** `addToFavorites`: attach the record's id with the nickname, at time `now`. */
    method AddToFavorites(pivot: CepUserPivot, cep: Row, nickname: string, now: nat)
      modifies pivot
      ensures pivot.rows == old(pivot.rows) + [PivotRow(id, cep.id, nickname, now, now)]
      ensures IsFavorite(pivot, cep)
    {
      pivot.Attach(id, cep.id, nickname, now);
      AttachEffect(old(pivot.rows), id, cep.id, nickname, now);
    }

    /** `removeFromFavorites`: detach the record's id; returns the number of rows deleted. */
    method RemoveFromFavorites(pivot: CepUserPivot, cep: Row) returns (deleted: nat)
      modifies pivot
      ensures pivot.rows == Without(old(pivot.rows), id, cep.id)
      ensures deleted == PairCount(old(pivot.rows), id, cep.id)
      ensures !IsFavorite(pivot, cep)
    {
      deleted := pivot.Detach(id, cep.id);
      DetachRemovesFavorite(old(pivot.rows), id, cep.id);
    }

    /** `isFavorite`: a read of the pivot table, which it cannot change. */
    predicate IsFavorite(pivot: CepUserPivot, cep: Row)
      reads pivot
    {
      IsFavoriteIn(pivot.rows, id, cep.id)
    }
  }
}
