# Solid Elections API: WebID registration and candidate enrichment

A Dafny model of the part of the Solid Elections API that has its own logic:

- the `WebID` table, whose rows link a WebID profile uri to an lblod person uri. Both columns are unique, and a write that breaks either constraint is rolled back (`models.dfy`);
- the `/store/` registrar, which checks the JSON fields, asks the election dataset whether the person exists, and saves the pair (`registrar.dfy`);
- the `/candidates` join, which adds a `webID` field to each candidate row whose `personURI` is a stored lblod id. It works in place over an array of rows (`enricher.dfy`);
- the `/get` listing of all stored rows (`listing.dfy`);
- the required-parameter guards of `/lists`, `/candidates` and `/person` (`handlers.dfy`).

Result rows are maps from field name to a `{type, value}` pair (`common.dfy`). Response bodies are maps from key to a Python value, so the `succes` key of the guard's 400 body shows up exactly as it is spelled.

The table has two forms. `Models.Table` is a value, and `Models.Insert` is the specification of one `save()`. `Models.WebIdStore` is a class that holds the rows and the id sequence, and its `Save` is proved against `Insert`. Likewise `Registrar.Register` and `Handlers.CandidatesResponse` are specifications, and `Registrar.Store` and `Handlers.Candidates` are the handlers proved against them. The source's properties are proved as lemmas about those specifications.

Collaborators are parameters:
- the dataset's existence check (`lblod_id_exists`) is `personExists: string -> bool`;
- the dataset queries (`get_lblod_lists`, `get_lblod_candidates`, `get_lblod_person_info`) are functions from the parameter value to rows;
- the clock (`datetime.now`) is the `now` argument of the insert;
- `datetime.isoformat` is the `isoformat` argument of the listing.

Modelling choices:
- The id column's sequence hands out 1 first. It is advanced by every insert attempt, including one that is rolled back, because a database sequence is not transactional. So a rolled-back insert leaves a gap in the ids.
- Rows are kept, and listed, in insertion order.
- An exception the handler does not catch is modelled as `InternalServerError`. This covers a candidate row without `personURI` (a `KeyError` in the loop) and a query parameter with an empty value list (an `IndexError`).
- `get_web_id` returns the first matching row. Because `lblod_id` is unique, at most one row can match (`Enricher.GetWebIdFindsMatch`).

## Model

| member | source | states |
|---|---|---|
| Models.Insert | src/models.py:29-32 | one `save()`: the sequence advances by one, the table only ever grows at its end and by at most one row, and it grows exactly when the insert succeeds, the new last row being the inserted record |
| Models.InsertFailsOnClash | src/models.py:30-31 | an insert raises IntegrityError exactly when the uri or the lblod id is already stored, and then the rows are as before (rolled back) |
| Models.InsertAppends | src/models.py:29-32 | a successful insert appends one row with the given uri, lblod id and `date_created` equal to the insertion time, under an id that no stored row has |
| Models.InsertKeepsInvariant | src/models.py:30-31 | every insert keeps no two rows sharing a uri, no two sharing an lblod id, and ids increasing; earlier rows stay a prefix |
| Models.LblodIdMatchesAtMostOne | src/models.py:31 | with unique lblod ids, two rows that carry the same lblod id are the same row |
| Models.WebIdStore.constructor | src/main.py:410 | a freshly created table is empty, valid, and its sequence starts at the first id |
| Models.WebIdStore.Save | src/models.py:29-32 | `save()` updates the stored rows and the sequence exactly as `Insert` says, and keeps the invariant |
| Registrar.Register | src/main.py:66-81 | the decision chain always answers with a JSON response; status 200 exactly when the pair was stored; a stored pair had both fields given and its lblod id known to the dataset; the table only grows at its end, by at most one row |
| Registrar.Store | src/main.py:64-81 | the handler's response and the new table state are those of the decision chain `Register`, and the invariant is kept |
| Registrar.MissingFieldRejected | src/main.py:66-69 | a missing or empty `uri` or `lblod_id` gets 400 with success and updated false, the table is unchanged, and the answer does not depend on the existence oracle |
| Registrar.UnknownPersonRejected | src/main.py:71-72 | with both fields given, an lblod id that the dataset does not know gets 400 with success and updated false, and nothing is stored, whatever the uri |
| Registrar.DuplicateRejected | src/main.py:75-79 | a uri or lblod id that is already stored gets 400 with success true and updated false, and the rows are exactly as before |
| Registrar.UpdatedExactlyWhenStored | src/main.py:64-81 | updated is reported if and only if both fields are given, the person exists and neither value is stored; then the table grows by exactly that row under a fresh id, with response 200, success and updated true; otherwise the rows are unchanged; the invariant holds either way |
| Registrar.SameUriStoredOnce | src/main.py:75-79 | when the same uri is registered twice and the first call updated, the second call does not, and the table never holds two rows with that uri |
| Enricher.GetWebId | src/main.py:393-405 | the lookup gives None exactly when no row carries the lblod id, and otherwise the uri of a row that carries it |
| Enricher.GetWebIdFindsMatch | src/main.py:404-405 | with unique lblod ids, the lookup gives the uri of the one row that carries the id |
| Enricher.FirstMissing | src/main.py:267-269 | the position at which the loop first meets a row without `personURI`: every earlier row has the field, and the row at that position lacks it |
| Enricher.EnrichAllAt | src/main.py:266-275 | enrichment keeps the number and the order of the candidate rows: output row i is input row i enriched |
| Enricher.Enriched | src/main.py:267-275 | one candidate after the loop body: it has the input's keys plus at most `webID`, and every other field keeps its value |
| Enricher.EnrichAll | src/main.py:266-275 | all candidates enriched in order; the output has as many rows as the input |
| Enricher.EnrichedOnMatch | src/main.py:267-273 | a row whose person uri is a stored row's lblod id gets `webID = {type: "literal", value: that row's uri}` |
| Enricher.EnrichedOnlyFromMatch | src/main.py:267-275 | a row with no matching stored row comes out unchanged, and a changed row got its `webID` from a matching stored row |
| Enricher.EnrichCandidates | src/main.py:266-275 | the in-place loop completes exactly when every row has `personURI`, and then the array equals the rows enriched in order; otherwise the rows before the first bad row are enriched and the rest are untouched |
| Listing.ModelToDict | src/main.py:386 | `model_to_dict` of a row has exactly the keys id, uri, lblod_id and date_created, the last still the row's timestamp |
| Listing.Entry | src/main.py:387-389 | an entry is the row's dict with only `date_created` changed, to the ISO rendering of the row's timestamp |
| Listing.GetWebIds | src/main.py:383-390 | one entry per stored row, in table order, each the row's id, uri, lblod id and ISO-formatted `date_created` |
| Listing.EntryCarriesRow | src/main.py:386-389 | an entry has exactly the keys id, uri, lblod_id and date_created, holding the row's values with the date formatted |
| Listing.EntriesDistinct | src/main.py:383-390 | under the table invariant, two entries of the listing differ in id, uri and lblod id, and ids grow along the listing |
| Handlers.LookupArg | src/main.py:190-191 | `req.args[name][0]`: a KeyError exactly when the name is absent, an IndexError only on an empty value list, and otherwise the first value given |
| Handlers.GuardedQuery | src/main.py:190-206 | the guard followed by the query: a 400 answer exactly when the parameter is absent, a 500 exactly when it has no value |
| Handlers.Lists | src/main.py:190-206 | `/lists` answers 400 exactly when `cityURI` is absent |
| Handlers.Person | src/main.py:337-353 | `/person` answers 400 exactly when `personURI` is absent |
| Handlers.CandidatesResponse | src/main.py:256-281 | `/candidates` answers 400 exactly when `listURI` is absent, and a 200 answer lists exactly as many rows as the query returned |
| Handlers.GuardRejectsMissing | src/main.py:190-199 | a missing query parameter gets 400 with body `{message: "Wrong query parameters", succes: false}` and no `success` key, whatever the query would return |
| Handlers.GuardPassesGiven | src/main.py:200-206 | with the parameter given, the answer is 200 with success true and the query's rows for the parameter's first value |
| Handlers.ListsGuarded | src/main.py:190-206 | `/lists` answers 400 without `cityURI`, and otherwise the lists for its first value |
| Handlers.PersonGuarded | src/main.py:337-353 | `/person` answers 400 without `personURI`, and otherwise the memberships for its first value |
| Handlers.Candidates | src/main.py:256-281 | the `/candidates` handler answers exactly `CandidatesResponse`: the guard, then the candidates enriched in place against the stored rows |
| Handlers.CandidatesShape | src/main.py:256-281 | without `listURI` the answer is the same 400 whatever the table and the query; with it, the result lists one entry per candidate, in order, each the candidate enriched |

## Left out

- The SPARQL query layer as a whole. Existence checks and queries are parameters, so the OCMW exclusion, deduplication and empty results for unknown uris are not modelled. The same goes for network failures of the dataset and string interpolation into query text.
- `/cities` and `r_get`: they only wrap a query, or `get_web_ids`, in a JSON response. `get_web_ids` is `Listing.GetWebIds`.
- Opening and closing the database connection per request, CORS, the OpenAPI annotations and `app.run`.
- `create_tables` runs at every start as `CREATE TABLE IF NOT EXISTS`, so a restart keeps the stored rows. `Models.WebIdStore.constructor` models the first start only; a restart is covered because every handler accepts any store that satisfies `Valid()`.
- Concurrency, including the race between the existence check and the insert. The uniqueness constraints are the modelled guarantee.
- The 255-character limit of the `varchar` column behind a peewee `CharField`. The database rejects, or trims trailing blanks of, longer values. The model's strings are unbounded.
- JSON body fields that are not strings, and a request without a JSON body. Fields are modelled as optional strings.
- Database errors other than uniqueness violations.
- When the table is read without `ORDER BY`, the database gives no ordering guarantee. The model lists rows in insertion order.
- Models.Insert: the id column is a 32-bit `SERIAL`, whose sequence fails once it passes 2147483647, after which `/store/` would answer 500. The model's ids are unbounded, so that failure is not captured.
- The ISO 8601 rendering itself. It is the `isoformat` parameter.
