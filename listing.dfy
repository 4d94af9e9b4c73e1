/** `get_web_ids`, behind the `/get` endpoint: every stored row as a dict. */
module Listing {
  import opened Common
  import opened Models

  /** `model_to_dict` of one row: its four columns, the timestamp still a datetime. */
  function ModelToDict(record: WebIdRecord): (d: map<string, Value>)
    ensures d.Keys == {"id", "uri", "lblod_id", "date_created"}
    ensures d["date_created"].Time? && d["date_created"].t == record.dateCreated
  {
    map["id" := Int(record.id), "uri" := Str(record.uri), "lblod_id" := Str(record.lblodId),
        "date_created" := Time(record.dateCreated)]
  }

  /** A listing entry: the row's dict with `date_created` replaced by its ISO 8601 text. */
  function Entry(record: WebIdRecord, isoformat: Timestamp -> string): (e: map<string, Value>)
    ensures e.Keys == ModelToDict(record).Keys
    ensures forall k :: k in e && k != "date_created" ==> e[k] == ModelToDict(record)[k]
    ensures e["date_created"] == Str(isoformat(record.dateCreated))
  {
    ModelToDict(record)["date_created" := Str(isoformat(record.dateCreated))]
  }

  /**
   * One entry per stored row, in table order. The dicts are built first and
   * their `date_created` values are then rewritten one by one; `isoformat`
   * stands for `datetime.isoformat`.
   */
  method GetWebIds(store: WebIdStore, isoformat: Timestamp -> string) returns (entries: seq<map<string, Value>>)
    ensures |entries| == |store.rows|
    ensures forall i :: 0 <= i < |entries| ==> entries[i] == Entry(store.rows[i], isoformat)
  {
    var rows := store.rows;
    entries := seq(|rows|, i requires 0 <= i < |rows| => ModelToDict(rows[i]));
    var i := 0;
    while i < |entries|
      invariant |entries| == |rows| && 0 <= i <= |rows|
      invariant forall j :: 0 <= j < i ==> entries[j] == Entry(rows[j], isoformat)
      invariant forall j :: i <= j < |entries| ==> entries[j] == ModelToDict(rows[j])
    {
      var entry := entries[i];
      entry := entry["date_created" := Str(isoformat(entry["date_created"].t))];
      entries := entries[i := entry];
      i := i + 1;
    }
  }

  /**
   * An entry carries exactly the row's id, uri, lblod id and formatted
   * creation time, so the row's stored values can be read back from it.
   */
  lemma EntryCarriesRow(record: WebIdRecord, isoformat: Timestamp -> string)
    ensures var e := Entry(record, isoformat);
      && e.Keys == {"id", "uri", "lblod_id", "date_created"}
      && e["id"] == Int(record.id) && e["uri"] == Str(record.uri)
      && e["lblod_id"] == Str(record.lblodId)
      && e["date_created"] == Str(isoformat(record.dateCreated))
  {
  }

  /**
   * Under the table invariant two different entries of the listing differ in
   * id, in uri and in lblod id, and the ids grow along the listing.
   */
  lemma EntriesDistinct(t: Table, isoformat: Timestamp -> string, i: nat, j: nat)
    requires TableInvariant(t)
    requires i < j < |t.rows|
    ensures var a, b := Entry(t.rows[i], isoformat), Entry(t.rows[j], isoformat);
      && a["id"].i < b["id"].i
      && a["uri"] != b["uri"]
      && a["lblod_id"] != b["lblod_id"]
  {
  }
}
