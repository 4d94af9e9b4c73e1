/**
 * The `/store/` endpoint: validate a WebID / lblod id pair, check that the
 * lblod id names a person of the election dataset, and store the pair.
 */
module Registrar {
  import opened Common
  import opened Models

  const MissingFieldsMessage: string := "Please set the \"uri\" and \"lblod_id\" fields in your JSON body"
  const UnknownLblodIdMessage: string := "This lblod ID does not exist in our dataset"
  const AlreadyStoredMessage: string := "WebID or lblod ID already exists in database"
  const StoredMessage: string := "WebID succesfully added to the database!"

  /** A JSON body field read with `get` is usable when present and truthy: not absent, not "". */
  predicate Given(field: Option<string>) {
    field.Some? && field.value != ""
  }

  function StoreResponse(status: nat, success: bool, updated: bool, message: string): Response {
    JsonResponse(status, map["success" := Bool(success), "updated" := Bool(updated), "message" := Str(message)])
  }

  /** The response reports that the pair was stored. */
  predicate Updated(r: Response) {
    r.JsonResponse? && "updated" in r.body && r.body["updated"] == Bool(true)
  }

  datatype Registration = Registration(response: Response, table: Table)

  /**
   * The decision chain of `/store/` over the table's state: missing fields,
   * then the dataset's existence check `personExists`, then the insert.
   */
  function Register(t: Table, uri: Option<string>, lblodId: Option<string>,
                    personExists: string -> bool, now: Timestamp): (r: Registration)
    ensures r.response.JsonResponse?
    ensures r.response.status == 200 <==> Updated(r.response)
    ensures Updated(r.response) ==> Given(uri) && Given(lblodId) && personExists(lblodId.value)
    ensures t.rows <= r.table.rows && |r.table.rows| <= |t.rows| + 1
  {
    if !Given(uri) || !Given(lblodId) then
      Registration(StoreResponse(400, false, false, MissingFieldsMessage), t)
    else if !personExists(lblodId.value) then
      Registration(StoreResponse(400, false, false, UnknownLblodIdMessage), t)
    else
      var inserted := Insert(t, uri.value, lblodId.value, now);
      if inserted.outcome.IntegrityError? then
        Registration(StoreResponse(400, true, false, AlreadyStoredMessage), inserted.table)
      else
        Registration(StoreResponse(200, true, true, StoredMessage), inserted.table)
  }

  /** The handler itself: the same chain, ending in the table's `save()`. */
  method Store(store: WebIdStore, uri: Option<string>, lblodId: Option<string>,
               personExists: string -> bool, now: Timestamp) returns (response: Response)
    requires store.Valid()
    modifies store
    ensures store.Valid()
    ensures Registration(response, store.State()) == Register(old(store.State()), uri, lblodId, personExists, now)
  {
    if !Given(uri) || !Given(lblodId) {
      return StoreResponse(400, false, false, MissingFieldsMessage);
    }
    if !personExists(lblodId.value) {
      return StoreResponse(400, false, false, UnknownLblodIdMessage);
    }
    var outcome := store.Save(uri.value, lblodId.value, now);
    if outcome.IntegrityError? {
      return StoreResponse(400, true, false, AlreadyStoredMessage);
    }
    response := StoreResponse(200, true, true, StoredMessage);
  }

  /**
   * A missing or empty field is answered with 400, success and updated false,
   * before the dataset is asked: the answer is the same whatever the oracle
   * says, and the table is unchanged.
   */
  lemma MissingFieldRejected(t: Table, uri: Option<string>, lblodId: Option<string>,
                             personExists: string -> bool, otherOracle: string -> bool,
                             now: Timestamp)
    requires !Given(uri) || !Given(lblodId)
    ensures Register(t, uri, lblodId, personExists, now)
         == Registration(StoreResponse(400, false, false, MissingFieldsMessage), t)
    ensures Register(t, uri, lblodId, personExists, now) == Register(t, uri, lblodId, otherOracle, now)
  {
  }

  /** A lblod id the dataset does not know is refused whatever the uri, and no row is stored. */
  lemma UnknownPersonRejected(t: Table, uri: Option<string>, lblodId: Option<string>,
                              personExists: string -> bool, now: Timestamp)
    requires Given(uri) && Given(lblodId) && !personExists(lblodId.value)
    ensures Register(t, uri, lblodId, personExists, now)
         == Registration(StoreResponse(400, false, false, UnknownLblodIdMessage), t)
  {
  }

  /**
   * A uri or lblod id that is already stored is answered with 400, success
   * true and updated false, and the rows are exactly as before.
   */
  lemma DuplicateRejected(t: Table, uri: Option<string>, lblodId: Option<string>,
                          personExists: string -> bool, now: Timestamp)
    requires Given(uri) && Given(lblodId) && personExists(lblodId.value)
    requires UriTaken(t.rows, uri.value) || LblodIdTaken(t.rows, lblodId.value)
    ensures var r := Register(t, uri, lblodId, personExists, now);
      r.response == StoreResponse(400, true, false, AlreadyStoredMessage) && r.table.rows == t.rows
  {
    InsertFailsOnClash(t, uri.value, lblodId.value, now);
  }

  /**
   * The pair is stored exactly when both fields are given, the person exists
   * and neither value is stored yet; then the table grows by that one row
   * under a fresh id, and otherwise its rows are unchanged. The invariant is
   * kept either way.
   */
  lemma UpdatedExactlyWhenStored(t: Table, uri: Option<string>, lblodId: Option<string>,
                                 personExists: string -> bool, now: Timestamp)
    requires TableInvariant(t)
    ensures var r := Register(t, uri, lblodId, personExists, now);
      && (Updated(r.response) <==>
            && Given(uri) && Given(lblodId) && personExists(lblodId.value)
            && !UriTaken(t.rows, uri.value) && !LblodIdTaken(t.rows, lblodId.value))
      && (Updated(r.response) ==>
            && r.response == StoreResponse(200, true, true, StoredMessage)
            && r.table.rows == t.rows + [WebIdRecord(t.nextId, uri.value, lblodId.value, now)]
            && (forall i :: 0 <= i < |t.rows| ==> t.rows[i].id != t.nextId))
      && (!Updated(r.response) ==> r.table.rows == t.rows)
      && TableInvariant(r.table)
  {
    if Given(uri) && Given(lblodId) && personExists(lblodId.value) {
      InsertFailsOnClash(t, uri.value, lblodId.value, now);
      InsertKeepsInvariant(t, uri.value, lblodId.value, now);
    }
  }

  /**
   * Registering the same uri a second time never stores it again: once the
   * first call reported updated, the second does not, and the table never
   * holds two rows with that uri.
   */
  lemma SameUriStoredOnce(t: Table, uri: string, firstId: Option<string>, secondId: Option<string>,
                          firstOracle: string -> bool, secondOracle: string -> bool,
                          firstNow: Timestamp, secondNow: Timestamp)
    requires TableInvariant(t)
    ensures var first := Register(t, Some(uri), firstId, firstOracle, firstNow);
      var second := Register(first.table, Some(uri), secondId, secondOracle, secondNow);
      && (Updated(first.response) ==> !Updated(second.response))
      && (forall i, j ::
            (0 <= i < |second.table.rows| && 0 <= j < |second.table.rows| &&
             second.table.rows[i].uri == uri && second.table.rows[j].uri == uri) ==> i == j)
  {
    var first := Register(t, Some(uri), firstId, firstOracle, firstNow);
    UpdatedExactlyWhenStored(t, Some(uri), firstId, firstOracle, firstNow);
    UpdatedExactlyWhenStored(first.table, Some(uri), secondId, secondOracle, secondNow);
    if Updated(first.response) {
      var rows := first.table.rows;
      assert rows[|rows| - 1].uri == uri;
      assert UriTaken(rows, uri);
    }
  }
}
