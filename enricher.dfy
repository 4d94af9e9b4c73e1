/**
 * The join of `/candidates`: each candidate row whose `personURI` value is a
 * stored lblod id gets a `webID` field holding that row's WebID uri.
 */
module Enricher {
  import opened Common
  import opened Models

  const PersonUriField: string := "personURI"
  const WebIdField: string := "webID"

  /**
   * `get_web_id`: the uri of the stored row whose lblod id is `lblodId`, or
   * None where the table raises `DoesNotExist`.
   */
  function GetWebId(rows: seq<WebIdRecord>, lblodId: string): (r: Option<string>)
    ensures r.None? <==> !LblodIdTaken(rows, lblodId)
    ensures r.Some? ==> exists i :: 0 <= i < |rows| && rows[i].lblodId == lblodId && rows[i].uri == r.value
  {
    if rows == [] then None
    else if rows[0].lblodId == lblodId then Some(rows[0].uri)
    else
      var r := GetWebId(rows[1..], lblodId);
      assert LblodIdTaken(rows[1..], lblodId) ==> LblodIdTaken(rows, lblodId) by {
        if LblodIdTaken(rows[1..], lblodId) {
          var i :| 0 <= i < |rows[1..]| && rows[1..][i].lblodId == lblodId;
          assert rows[i + 1].lblodId == lblodId;
        }
      }
      assert r.Some? ==> exists i :: 0 <= i < |rows| && rows[i].lblodId == lblodId && rows[i].uri == r.value by {
        if r.Some? {
          var i :| 0 <= i < |rows[1..]| && rows[1..][i].lblodId == lblodId && rows[1..][i].uri == r.value;
          assert rows[i + 1].lblodId == lblodId && rows[i + 1].uri == r.value;
        }
      }
      r
  }

  /** With unique lblod ids the lookup finds the one row that carries the id. */
  lemma {:induction false} GetWebIdFindsMatch(rows: seq<WebIdRecord>, lblodId: string, i: nat)
    requires UniqueLblodIds(rows)
    requires i < |rows| && rows[i].lblodId == lblodId
    ensures GetWebId(rows, lblodId) == Some(rows[i].uri)
  {
    if i > 0 {
      assert rows[0].lblodId != rows[i].lblodId;
      assert UniqueLblodIds(rows[1..]) by {
        forall a, b | 0 <= a < b < |rows[1..]|
          ensures rows[1..][a].lblodId != rows[1..][b].lblodId
        {
          assert rows[1..][a] == rows[a + 1] && rows[1..][b] == rows[b + 1];
        }
      }
      GetWebIdFindsMatch(rows[1..], lblodId, i - 1);
    }
  }

  predicate HasPersonUri(row: Row) {
    PersonUriField in row
  }

  predicate AllHavePersonUri(candidates: seq<Row>) {
    forall i :: 0 <= i < |candidates| ==> HasPersonUri(candidates[i])
  }

  /** One candidate after the loop body: `webID` added on a hit, the row as it was on a miss. */
  function Enriched(row: Row, rows: seq<WebIdRecord>): (out: Row)
    requires HasPersonUri(row)
    ensures row.Keys <= out.Keys <= row.Keys + {WebIdField}
    ensures forall k :: k in row && k != WebIdField ==> out[k] == row[k]
  {
    match GetWebId(rows, row[PersonUriField].value)
    case Some(webIdUri) => row[WebIdField := TypeValuePair(LiteralTag, webIdUri)]
    case None => row
  }

  /** Every candidate enriched, in order. */
  function EnrichAll(candidates: seq<Row>, rows: seq<WebIdRecord>): (out: seq<Row>)
    requires AllHavePersonUri(candidates)
    ensures |out| == |candidates|
  {
    if candidates == [] then []
    else [Enriched(candidates[0], rows)] + EnrichAll(candidates[1..], rows)
  }

  /** The index of the first candidate without `personURI`, where the loop raises `KeyError`. */
  function FirstMissing(candidates: seq<Row>): (k: nat)
    ensures k <= |candidates|
    ensures forall i :: 0 <= i < k ==> HasPersonUri(candidates[i])
    ensures k < |candidates| ==> !HasPersonUri(candidates[k])
  {
    if candidates == [] || !HasPersonUri(candidates[0]) then 0
    else 1 + FirstMissing(candidates[1..])
  }

  /** Enrichment keeps the number and the order of the rows: the i-th output is the i-th input enriched. */
  lemma {:induction false} EnrichAllAt(candidates: seq<Row>, rows: seq<WebIdRecord>)
    requires AllHavePersonUri(candidates)
    ensures |EnrichAll(candidates, rows)| == |candidates|
    ensures forall i :: 0 <= i < |candidates| ==> EnrichAll(candidates, rows)[i] == Enriched(candidates[i], rows)
  {
    if candidates != [] {
      var tail := candidates[1..];
      assert AllHavePersonUri(tail) by {
        forall i | 0 <= i < |tail| ensures HasPersonUri(tail[i]) {
          assert tail[i] == candidates[i + 1];
        }
      }
      EnrichAllAt(tail, rows);
      forall i | 0 <= i < |candidates|
        ensures EnrichAll(candidates, rows)[i] == Enriched(candidates[i], rows)
      {
        if i > 0 {
          assert candidates[i] == tail[i - 1];
        }
      }
    }
  }

  /**
   * A row whose person uri is a stored lblod id gets `webID` set to the
   * literal of that row's uri.
   */
  lemma EnrichedOnMatch(row: Row, rows: seq<WebIdRecord>, i: nat)
    requires UniqueLblodIds(rows) && HasPersonUri(row)
    requires i < |rows| && rows[i].lblodId == row[PersonUriField].value
    ensures Enriched(row, rows) == row[WebIdField := TypeValuePair(LiteralTag, rows[i].uri)]
  {
    GetWebIdFindsMatch(rows, row[PersonUriField].value, i);
  }

  /**
   * A row gets a `webID` only from a matching stored row, and a row with no
   * match comes out unchanged.
   */
  lemma EnrichedOnlyFromMatch(row: Row, rows: seq<WebIdRecord>)
    requires HasPersonUri(row)
    ensures !LblodIdTaken(rows, row[PersonUriField].value) ==> Enriched(row, rows) == row
    ensures Enriched(row, rows) != row ==>
      exists i :: 0 <= i < |rows| && rows[i].lblodId == row[PersonUriField].value &&
        Enriched(row, rows) == row[WebIdField := TypeValuePair(LiteralTag, rows[i].uri)]
  {
  }

  /**
   * The `/candidates` loop, updating the rows in place. It stops with
   * `completed` false at the first row without `personURI` (the `KeyError`
   * the handler does not catch); every row before it is enriched and the
   * rest are untouched.
   */
  method EnrichCandidates(candidates: array<Row>, store: WebIdStore) returns (completed: bool)
    modifies candidates
    ensures completed <==> AllHavePersonUri(old(candidates[..]))
    ensures completed <==> FirstMissing(old(candidates[..])) == candidates.Length
    ensures forall j :: 0 <= j < candidates.Length ==>
      candidates[j] == if j < FirstMissing(old(candidates[..])) then Enriched(old(candidates[j]), store.rows)
                       else old(candidates[j])
    ensures completed ==> candidates[..] == EnrichAll(old(candidates[..]), store.rows)
  {
    ghost var original := candidates[..];
    ghost var k := FirstMissing(original);
    var i := 0;
    while i < candidates.Length
      invariant 0 <= i <= k
      invariant forall j :: 0 <= j < i ==> candidates[j] == Enriched(original[j], store.rows)
      invariant forall j :: i <= j < candidates.Length ==> candidates[j] == original[j]
    {
      var candidate := candidates[i];
      if PersonUriField !in candidate {
        return false;
      }
      match GetWebId(store.rows, candidate[PersonUriField].value) {
        case Some(webIdUri) =>
          candidates[i] := candidate[WebIdField := TypeValuePair(LiteralTag, webIdUri)];
        case None =>
      }
      i := i + 1;
    }
    EnrichAllAt(original, store.rows);
    completed := true;
  }
}
