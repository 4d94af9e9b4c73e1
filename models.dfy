/**
 * The `WebID` table: rows `(id, uri, lblod_id, date_created)` with a unique
 * `uri` column and a unique `lblod_id` column. A write that breaks either
 * constraint raises `IntegrityError` and is rolled back.
 */
module Models {
  import opened Common

  datatype WebIdRecord = WebIdRecord(id: nat, uri: string, lblodId: string, dateCreated: Timestamp)

  /**
   * The table's rows in storage order, and the next value of the sequence
   * behind the implicit auto-increment primary key `id`.
   */
  datatype Table = Table(rows: seq<WebIdRecord>, nextId: nat)

  /** A serial column's sequence hands out 1 first. */
  const FirstId: nat := 1

  predicate UniqueUris(rows: seq<WebIdRecord>) {
    forall i, j :: 0 <= i < j < |rows| ==> rows[i].uri != rows[j].uri
  }

  predicate UniqueLblodIds(rows: seq<WebIdRecord>) {
    forall i, j :: 0 <= i < j < |rows| ==> rows[i].lblodId != rows[j].lblodId
  }

  /** Ids grow along the table and stay below the sequence's next value. */
  predicate IdsIssued(rows: seq<WebIdRecord>, nextId: nat) {
    && (forall i, j :: 0 <= i < j < |rows| ==> rows[i].id < rows[j].id)
    && (forall i :: 0 <= i < |rows| ==> FirstId <= rows[i].id < nextId)
    && FirstId <= nextId
  }

  predicate TableInvariant(t: Table) {
    UniqueUris(t.rows) && UniqueLblodIds(t.rows) && IdsIssued(t.rows, t.nextId)
  }

  predicate UriTaken(rows: seq<WebIdRecord>, uri: string) {
    exists i :: 0 <= i < |rows| && rows[i].uri == uri
  }

  predicate LblodIdTaken(rows: seq<WebIdRecord>, lblodId: string) {
    exists i :: 0 <= i < |rows| && rows[i].lblodId == lblodId
  }

  datatype InsertOutcome = Inserted(record: WebIdRecord) | IntegrityError

  datatype InsertResult = InsertResult(outcome: InsertOutcome, table: Table)

  /**
   * `WebID(uri=..., lblod_id=...).save()` with `date_created` defaulted to
   * `now`. The sequence value is drawn before the constraints are checked and
   * is not given back by the rollback.
   */
  function Insert(t: Table, uri: string, lblodId: string, now: Timestamp): (r: InsertResult)
    ensures r.table.nextId == t.nextId + 1
    ensures t.rows <= r.table.rows && |r.table.rows| <= |t.rows| + 1
    ensures r.outcome.Inserted? <==> |r.table.rows| == |t.rows| + 1
    ensures r.outcome.Inserted? ==> r.table.rows[|t.rows|] == r.outcome.record
  {
    var id := t.nextId;
    if UriTaken(t.rows, uri) || LblodIdTaken(t.rows, lblodId) then
      InsertResult(IntegrityError, Table(t.rows, id + 1))
    else
      var record := WebIdRecord(id, uri, lblodId, now);
      InsertResult(Inserted(record), Table(t.rows + [record], id + 1))
  }

  /** An insert fails exactly when the uri or the lblod id is already stored, and then the rows are as before. */
  lemma InsertFailsOnClash(t: Table, uri: string, lblodId: string, now: Timestamp)
    ensures var r := Insert(t, uri, lblodId, now);
      && (r.outcome.IntegrityError? <==> UriTaken(t.rows, uri) || LblodIdTaken(t.rows, lblodId))
      && (r.outcome.IntegrityError? ==> r.table.rows == t.rows)
  {
  }

  /**
   * A successful insert appends one row carrying the given uri, lblod id and
   * clock reading, under an id no stored row has.
   */
  lemma InsertAppends(t: Table, uri: string, lblodId: string, now: Timestamp)
    requires TableInvariant(t)
    ensures var r := Insert(t, uri, lblodId, now);
      r.outcome.Inserted? ==>
        && r.table.rows == t.rows + [r.outcome.record]
        && r.outcome.record.uri == uri
        && r.outcome.record.lblodId == lblodId
        && r.outcome.record.dateCreated == now
        && (forall i :: 0 <= i < |t.rows| ==> t.rows[i].id != r.outcome.record.id)
  {
  }

  /** Every insert, failed or not, keeps both uniqueness constraints and the id order. */
  lemma InsertKeepsInvariant(t: Table, uri: string, lblodId: string, now: Timestamp)
    requires TableInvariant(t)
    ensures TableInvariant(Insert(t, uri, lblodId, now).table)
    ensures t.rows <= Insert(t, uri, lblodId, now).table.rows
  {
  }

  /** Under the unique `lblod_id` constraint a lookup by lblod id matches at most one row. */
  lemma LblodIdMatchesAtMostOne(rows: seq<WebIdRecord>, lblodId: string, i: nat, j: nat)
    requires UniqueLblodIds(rows)
    requires i < |rows| && j < |rows|
    requires rows[i].lblodId == lblodId && rows[j].lblodId == lblodId
    ensures i == j
  {
  }

  /** The table as the database holds it, updated in place by `save()`. */
  class WebIdStore {
    var rows: seq<WebIdRecord>
    var nextId: nat

    function State(): Table
      reads this
    {
      Table(rows, nextId)
    }

    ghost predicate Valid()
      reads this
    {
      TableInvariant(State())
    }

    constructor ()
      ensures Valid() && rows == [] && nextId == FirstId
    {
      rows := [];
      nextId := FirstId;
    }

    method Save(uri: string, lblodId: string, now: Timestamp) returns (outcome: InsertOutcome)
      requires Valid()
      modifies this
      ensures Valid()
      ensures InsertResult(outcome, State()) == Insert(old(State()), uri, lblodId, now)
    {
      InsertKeepsInvariant(State(), uri, lblodId, now);
      var id := nextId;
      nextId := nextId + 1;
      if UriTaken(rows, uri) || LblodIdTaken(rows, lblodId) {
        outcome := IntegrityError;
      } else {
        var record := WebIdRecord(id, uri, lblodId, now);
        rows := rows + [record];
        outcome := Inserted(record);
      }
    }
  }
}
