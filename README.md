# Webhook message store: a Dafny model

This project models the core of a small service. The service takes in SMS-style
webhook messages, stores them idempotently and serves them back. The model
covers three parts of it:

- **the payload validator** (`app/schemas.py`). The `WebhookMessage` schema
  decides whether a decoded JSON body is a well-formed message. `message_id`
  must be non-empty. `from` and `to` must match `^\+\d+$`. `ts` must end in
  `Z`. `text` is optional and at most 4096 characters. The senders are read
  under their aliases "from" and "to" and stored as `from_msisdn` and
  `to_msisdn`.
- **the message store** (`app/models.py`). The `messages` table is a
  sequence of rows in insertion order, with `message_id` as primary key.
  `insert_message` is an idempotent insert returning `Created` or
  `Duplicate`. `fetch_messages` is a filtered read, ordered by
  `(ts, message_id)` and paginated, that also returns a total count.
  `get_stats` returns the aggregates: row count, distinct senders, the top
  ten senders, and the first and last `ts`.
- **the read endpoints** (`app/main.py`). `list_messages` applies the bounds
  and defaults of `limit` and `offset`, forwards the filters and echoes its
  parameters; an offset too large for an SQLite INTEGER ends in a server
  error. `stats` passes `get_stats` through unchanged.

Files:

- `wrappers.dfy`: `Option`, `Result`, `Min`, `Max`.
- `strings.dfy`: digits, suffixes, substrings, and the lexicographic code-point
  order. SQLite's BINARY collation uses this order for `ts >= ?`,
  `ORDER BY`, `MIN` and `MAX`.
- `schemas.dfy`: the validator.
- `message_table.dfy`: rows, the insert, and the class `MessageStore`. Its
  fields are the rows and the primary-key index, and `InsertMessage` updates
  them in place.
- `message_query.dfy`: `fetch_messages`.
- `message_stats.dfy`: `get_stats`.
- `api.dfy`: `list_messages` and `stats`.

The reads are functions of the table's contents (`rows: seq<Row>`), because
each read sees the table as it stands. The clock reading
`datetime.utcnow().isoformat()` is the parameter `now` of the insert.

Two points where the code is narrower than a first reading suggests, and the
model follows the code:

- Only the aliases "from" and "to" are read. A body keyed by `from_msisdn`
  is refused (`FieldNamesAreNotAliases`).
- Senders with equal counts come in no particular order. The SQL sorts by
  count only, so the contract does not fix a tie-break.

The code's `q` filter is SQL `LIKE`; the model reads it as a plain substring
test (see Left out).

## Model

| member | source | states |
|---|---|---|
| `Schemas.MatchE164` | app/schemas.py:5 | `^\+\d+$`, matched element by element from the start anchor, accepts exactly the strings made of `+` followed by one or more ASCII digits and nothing else |
| `Schemas.ValidateMsisdn` | app/schemas.py:15-19 | accepts a value if and only if it has the MSISDN shape, returns it unchanged, and otherwise fails with an error naming the field |
| `Schemas.ValidateTs` | app/schemas.py:21-25 | accepts a value if and only if its last character is `Z` (no other calendar check), returns it unchanged, and otherwise fails with a timestamp error |
| `Schemas.MessageIdField` | app/schemas.py:9 | `message_id` is accepted exactly when it is a JSON string of length at least 1, and is returned unchanged; an empty string gives `TooShort("message_id")`, a missing key `Missing`, a non-string `NotAString` |
| `Schemas.MsisdnField` | app/schemas.py:10-11 | `from`/`to` are accepted exactly when they are JSON strings of MSISDN shape, returned unchanged; a string of another shape gives `BadMsisdn` under the alias, a missing key `Missing`, a non-string `NotAString` |
| `Schemas.TsField` | app/schemas.py:12 | `ts` is accepted exactly when it is a JSON string ending in `Z`, returned unchanged; another string gives `BadTimestamp("ts")` |
| `Schemas.TextField` | app/schemas.py:13 | `text` is accepted when absent, null, or a string of at most 4096 characters, and gives that text or None; a longer string gives `TooLong("text")`, another JSON value `NotAString("text")` |
| `Schemas.StringField` | app/schemas.py:9-12 | a required string field is accepted exactly when its key is present with a JSON string; an absent key is reported as missing |
| `Schemas.Parse` | app/schemas.py:8-25 | a payload is accepted if and only if every field constraint holds: non-empty id, MSISDN `from` and `to`, `ts` ending in `Z`, `text` absent, null or at most 4096 characters. The message then holds the payload's own strings, with "from" and "to" stored as `fromMsisdn` and `toMsisdn`, and is well-formed. A refusal holds one to five errors and names every failing field: `Missing` or `NotAString` for each absent or non-string required key, `TooShort("message_id")`, `BadMsisdn("from")`/`BadMsisdn("to")`, `BadTimestamp("ts")`, `TooLong("text")` or `NotAString("text")`; and every error it holds names one of the five fields and a field that does break its constraint |
| `Schemas.MsisdnExamples` | app/schemas.py:15-19 | `"1234567"`, `"+"` and `"+12a4"` are refused; `"+1234567"` is accepted unchanged |
| `Schemas.TimestampExamples` | app/schemas.py:21-25 | `"2024-01-01T00:00:00"` is refused; `"2024-01-01T00:00:00Z"` is accepted unchanged |
| `Schemas.FieldNamesAreNotAliases` | app/schemas.py:10-11 | a payload that names the sender `from_msisdn` and has no `from` key is refused with `from` missing |
| `MessageTable.Insert` | app/models.py:44-82 | `insert_message` creates a row exactly when the `message_id` is not yet stored, appending the message with `created_at` = now + `Z`; a duplicate leaves the table as it was |
| `MessageTable.InsertNew` | app/models.py:54-78 | a new `message_id` gives `Created`. Exactly one row is added, holding the message's fields and a `created_at` ending in `Z`. The row is found under its id and no other id's row changes |
| `MessageTable.InsertExisting` | app/models.py:80-82 | a `message_id` already stored gives `Duplicate`; the table, and so the first insert's values, is unchanged |
| `MessageTable.InsertKeepsInvariant` | app/models.py:20-27 | an insert keeps `message_id` unique (the primary key). If the table held only validated messages and the new message is validated, it still does |
| `MessageTable.ReplayCreatesOnce` | app/models.py:44-82 | submitting one `message_id` any number of times yields exactly one `Created` if it was new and none otherwise. The table grows by that many rows, and the row kept is the first submission's |
| `MessageTable.MessageStore.constructor` | app/models.py:20-27 | a store over a freshly created table is empty, with its primary-key index consistent |
| `MessageTable.MessageStore.InsertMessage` | app/models.py:44-82 | the in-place insert changes rows and outcome exactly as `Insert` says. A duplicate leaves the rows unchanged, a created row is found under its id, and the invariant (unique ids, consistent index, `created_at` ending in `Z`) is kept |
| `MessageQuery.Conditions` | app/models.py:94-111 | a condition is appended exactly for each filter that is given (neither None nor empty): `from_msisdn = ?` for `from_msisdn`, `ts >= ?` for `since`, `text LIKE ?` for `q`, each with the filter's own value, and no other condition |
| `MessageQuery.ConditionsMeaning` | app/models.py:94-111 | the WHERE clause built condition by condition holds of a row if and only if every supplied filter holds: exact `from_msisdn`, `ts >= since` in text order, `text` containing `q` (never for a NULL text). A None or empty filter is ignored |
| `MessageQuery.Where` | app/models.py:109-118 | the selected rows are exactly the table's rows satisfying the WHERE clause, and they keep unique ids |
| `MessageQuery.WhereMultiset` | app/models.py:109-118 | the selection keeps every matching row as many times as the table holds it and drops the others |
| `MessageQuery.SortByKey` | app/models.py:126 | `ORDER BY ts ASC, message_id ASC` gives a permutation of its input that is ordered by `(ts, message_id)` and keeps unique ids |
| `MessageQuery.SortedPermutationUnique` | app/models.py:126 | with unique `message_id`s there is only one ordered arrangement of a set of rows, so the order is total |
| `MessageQuery.Page` | app/models.py:127 | `LIMIT`/`OFFSET` gives `min(limit, max(0, n - offset))` items, the i-th being item `offset + i` of the input |
| `MessageQuery.ItemOf` | app/models.py:135-144 | an item has exactly the keys `message_id`, `from`, `to`, `ts`, `text`; it has no `created_at` and no `from_msisdn`/`to_msisdn` |
| `MessageQuery.Items` | app/models.py:135-144 | one item per row, in the rows' order, each the row under the keys of `ItemOf` |
| `MessageQuery.ItemRoundTrip` | app/models.py:135-144 | an item of a stored validated message is a payload the validator accepts, and it parses back to that message |
| `MessageQuery.FetchMessages` | app/models.py:84-146 | `data` is the renamed page of the ordered matching rows, and its length is `min(limit, max(0, total - offset))` |
| `MessageQuery.FetchSpec` | app/models.py:113-144 | on a table with unique ids, `total` is the number of rows meeting all filters, whatever `limit` and `offset` are. The page holds only such rows, each once, ordered by `(ts, message_id)`, and has the stated length |
| `MessageQuery.FetchIgnoresInsertionOrder` | app/models.py:121-130 | two tables with the same rows in different insertion orders give the same data and total |
| `MessageQuery.PagingCoversAll` | app/models.py:126-127 | stepping `offset` by `limit` from 0 until `total` returns all matching rows in order, each exactly once |
| `MessageStats.DistinctSenders` | app/models.py:160-162 | the groups of `GROUP BY from_msisdn` are exactly the table's senders, each once |
| `MessageStats.GroupCounts` | app/models.py:158-162 | one group per distinct sender, in the order `DistinctSenders` gives, each with that sender's number of rows |
| `MessageStats.SendersCountIsGroupCount` | app/models.py:155-156 | `COUNT(DISTINCT from_msisdn)` equals the number of groups |
| `MessageStats.GroupsPartitionTable` | app/models.py:158-162 | the per-sender counts add up to the number of rows |
| `MessageStats.SortByCount` | app/models.py:163 | `ORDER BY count DESC` gives a permutation with non-increasing counts |
| `MessageStats.TopSenders` | app/models.py:158-170 | `messages_per_sender` has `min(10, senders)` entries. Each is a sender with its true row count, no sender appears twice, and counts are non-increasing. A sender left out has no more rows than the last one listed. Ties may come in any order |
| `MessageStats.MinTs` | app/models.py:172-174 | `MIN(ts)` is null exactly on an empty table; otherwise it is some row's `ts` and no row's `ts` is below it in text order |
| `MessageStats.MaxTs` | app/models.py:172-175 | `MAX(ts)` is null exactly on an empty table; otherwise it is some row's `ts` and no row's `ts` is above it in text order |
| `MessageStats.GetStats` | app/models.py:148-185 | `total_messages` is the row count, `senders_count` the number of distinct senders, `messages_per_sender` a top-10 list (`IsTopSenders`), and `first_message_ts`/`last_message_ts` null exactly on an empty table, otherwise a stored `ts` that bounds every row's `ts` from below/above |
| `MessageStats.StatsSpec` | app/models.py:148-185 | `total_messages` is the row count, and `senders_count` is the number of distinct senders: at most the total, and zero exactly on an empty table. The top list meets `IsTopSenders`; with at most ten senders its counts sum to the total. The first and last `ts` are null exactly on an empty table, with first ≤ last |
| `MessageStats.EmptyTableStats` | app/models.py:179-185 | an empty table reports 0, 0, an empty list and two nulls |
| `Api.ListMessages` | app/main.py:17-38 | a request is refused as unprocessable if and only if `limit` (default 50) is outside [1, 100] or `offset` (default 0) is below 0, and every violated bound is reported. A request within bounds whose offset exceeds 2^63 - 1 ends in a server error, because sqlite3 cannot bind it (app/models.py:129); every other request is served. A served request echoes the `limit` and `offset` used and returns `data` and `total` exactly as `fetch_messages` gives them for the filters `from`→`from_msisdn`, `since`, `q` |
| `Api.FilterOf` | app/main.py:21-31 | the query parameter `from` becomes the `from_msisdn = ?` condition, and `since` and `q` their own conditions, each exactly when given |
| `Api.ListDefaults` | app/main.py:19-20 | with no parameters the limit is 50 and the offset 0, the total is the row count, and the data is the first 50 rows in order |
| `Api.ListResponseSpec` | app/main.py:25-38 | a served listing's total counts the rows meeting all filters; its data is the renamed page of the ordered matching rows and holds `min(limit, max(0, total - offset))` of them, in `(ts, message_id)` order, each once |
| `Api.ListItemsParseBack` | app/main.py:33-38 | when the table holds only validated messages, every listed item is a payload the validator accepts and parses back to a stored message |
| `Api.SenderTotalMatchesStats` | app/main.py:21-31 | listing with `from` set to a sender gives as total that sender's row count from the statistics |
| `Api.StatsEndpoint` | app/main.py:41-43 | `stats` returns `get_stats` unchanged, so its row count and top-sender list meet the statistics' contract |

## Left out

- `MessageTable.MessageStore.constructor`: starts from an empty table. `CREATE TABLE IF NOT EXISTS` keeps the rows of an existing database file; the functional operations hold for any rows, so only this starting point is narrower.
- SQLite plumbing: `get_connection`, `init_db` and `check_db` (connection handling and DDL). The table is a value inside `MessageStore`. Storage errors other than the primary-key violation propagate as exceptions in the source and are not modelled.
- `insert_message` maps every `sqlite3.IntegrityError` to "duplicate", NOT NULL violations included. Only validated messages, whose columns are never null, reach it, so the model treats the primary key as the only constraint.
- `MessageQuery.Holds`: the `q` filter is modelled as a plain substring test. SQLite `LIKE` is also ASCII case-insensitive and treats `%` and `_` in `q` as wildcards, which the model does not capture. A NULL `text` never matches, as in SQL.
- `Schemas.MatchE164`: digits are ASCII `0`-`9` and `$` is the end of the string. Python's `\d` also accepts other Unicode decimal digits, and `$` also matches before a final newline; neither is modelled.
- `Schemas.Parse`: payload fields holding JSON arrays, objects or non-integer numbers are outside the model (`JsonValue` has no case for them); pydantic refuses them for `str` fields, as the model does for the values it has.
- `Schemas.Parse`: non-string JSON values for string fields are refused. Pydantic v1 would coerce numbers to strings; that is not modelled. Error messages are reduced to an error kind and the field name.
- `created_at`: the wall clock is the parameter `now`. The format of `isoformat()` is not modelled, only the appended `Z`.
- `MessageQuery.FetchMessages`: `limit` and `offset` are natural numbers. SQLite's treatment of negative LIMIT/OFFSET is not modelled, because `list_messages` passes a limit in [1, 100] and an offset ≥ 0. An offset of 2^63 or more makes sqlite3 raise `OverflowError` when the data query binds it; `FetchMessages` itself accepts any offset, and that failure is modelled one level up, as the `ServerError` outcome of `Api.ListMessages`.
- `Api.ListMessages`: query parameters arrive already converted to integers. Parsing the query string and the framework's 422 and 500 response bodies are not modelled; an offset of 2^63 or more is modelled only as the bare `ServerError` outcome.
- The ingestion endpoint, which would run the signature check, the validator and the insert in turn, is not part of this model.
- `app/security.py` (HMAC-SHA256 signature check with a constant-time compare) is not part of this model: it calls a cryptographic library.
- `app/config.py` (environment settings) and `app/logging_utils.py` (log output) are I/O and are not part of this model. Neither is the FastAPI wiring in `app/main.py` (app construction, the startup hook).
- Concurrency: the model is sequential. Uniqueness under concurrent duplicate inserts depends on SQLite's atomic primary-key check. `ReplayCreatesOnce` states the sequential version.
- Tie order among senders with equal counts: the SQL leaves it open. `TopSenders` picks one order, but its contract does not fix any.
