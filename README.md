# Sensor telemetry: device agent, ingestion endpoint and reading store

This project models the core of a small classroom monitoring system:

- Each producer group runs an agent on a microcontroller. The agent joins Wi-Fi with retries and backoff, reads its sensors, and decides whether a reading changed significantly. It posts each reading as JSON to the server and drives a status LED from the reply.
- The server validates each posted reading against the configured producer groups (`VALID_GROUPS`). It appends accepted readings to an append-only table.
- The server answers two read queries: the latest reading of every group (for the dashboard) and the recent history of one group.

The model has these modules:

- `Telemetry` holds the values all parts share.
  - A reading is the sensor dictionary as its items in insertion order.
  - The envelope is the posted JSON object. A key absent from the object is `None`.
- `Sequences` provides a stable insertion sort by a "less than or equal" relation, plus facts about duplicates.
- `Database` models the `sensor_data` table.
  - `SensorTable` is a class whose row sequence and AUTOINCREMENT counter are updated in place by `SaveSensorData`.
  - Each SQL query is restated as a function over the rows: a join with the per-group `MAX(timestamp)`, `WHERE`, `ORDER BY` and `LIMIT` under SQLite's rules.
- `Server` models the three JSON endpoints and their validation chain. A response is a status code and the JSON object returned.
- `Device` models the agent's loops:
  - `ConnectWifi` and `EnsureWifi` are methods with `while` loops, proved against closed-form descriptions of when they succeed and how long they wait.
  - `HasSignificantChange` scans the new reading's keys.
  - `Agent` carries the link handle, the last logged reading and the LED across iterations of the main loop.
  - The radio, the clock, the sensor and the HTTP client appear only through the outcomes they produce, which the caller supplies.
- `EndToEnd` relates the agent's posted envelope to the endpoint and the queries.

Where SQL leaves the order of rows open, the model keeps table order. That applies to rows of one group in the latest-per-group query, and to rows with equal timestamps in the history query.

The latest-per-group query returns every row that ties for its group's largest timestamp. The code has no tie-break by id, and the model follows the code. When every group's timestamps are distinct, `LatestOnePerGroup` shows that group ids in the result strictly increase. Together with `LatestCoversEveryGroup`, each group with rows then appears exactly once.

## Model

| member | source | states |
|---|---|---|
| Telemetry.Lookup | esp32-template.py:242-244 | indexing finds a value exactly when some item has the key, and the value found is stored under that key |
| Database.SensorTable.constructor | database.py:21-29 | a new table is empty and its AUTOINCREMENT counter is 0 |
| Database.SensorTable.SaveSensorData | database.py:35-48 | appends exactly one row with the submitted fields; the new id is one above the counter and above every earlier id; ids stay positive and strictly increasing |
| Database.SensorTable.GetLatestDataAllGroups | database.py:52-81 | the result is the records of the latest-per-group query, one per returned row; so every record comes from a row holding its group's largest timestamp, every such row's record is returned, every group with rows appears, records come in group_id order, and with distinct timestamps within each group no group appears twice |
| Database.ToRecord | database.py:74-79 | a record keeps the row's group_id, timestamp and sensor data and drops the id |
| Database.ToRecords | database.py:72-79 | one record per row, in the rows' order |
| Database.SensorTable.GetGroupHistory | database.py:83-103 | the result is the records of the history query, one per returned row (so no row is repeated); every record comes from a row of the requested group; records come newest first; there are at most `limit` records when `limit` is not negative, and the whole group when the limit is negative or not reached; no row of the group newer than a returned record is left out |
| Database.JoinMax | database.py:60-64 | the join keeps exactly the rows that match their group's MAX(timestamp), and never more often than they occur |
| Database.LatestRows | database.py:57-66 | the latest-per-group query returns exactly the table rows holding their group's largest timestamp, each no more often than stored; its order is stated by LatestOrderedByGroup |
| Database.WhereGroup | database.py:88 | keeps exactly the rows of the requested group, and never more often than they occur |
| Database.Limit | database.py:88-89 | LIMIT returns a prefix; the prefix is no longer than a non-negative limit and shorter than the input only when cut at the limit; a negative limit returns everything |
| Database.HistoryRows | database.py:87-90 | the history query returns rows of the table in the requested group, at most `limit` of them when `limit` is not negative; completeness and order are stated by HistoryRowsOfGroup, HistoryIsTopOfGroup and HistoryNewestFirst |
| Database.TextLeTotal | database.py:65 | any two group ids are comparable under the text order |
| Database.TextLeTransitive | database.py:65 | the text order is transitive |
| Database.ByGroupIsTotalPreorder | database.py:65 | ORDER BY group_id is a total preorder on rows |
| Database.NewerFirstIsTotalPreorder | database.py:88 | ORDER BY timestamp DESC is a total preorder on rows |
| Database.LatestRowsAreGroupMaxima | database.py:57-68 | a row is returned iff it is in the table and has its group's largest timestamp (all tied rows, nothing else); the result is a sub-multiset of the table |
| Database.LatestOrderedByGroup | database.py:65 | the latest-per-group result is sorted by group_id |
| Database.GroupHasMax | database.py:61-63 | every group that has rows has a row attaining its maximum timestamp |
| Database.LatestCoversEveryGroup | database.py:57-68 | a group appears in the result iff it has a row in the table; an empty table gives an empty result |
| Database.LatestOnePerGroup | database.py:57-68 | when every group's timestamps are distinct, group ids in the result strictly increase, so no group appears twice (LatestCoversEveryGroup gives that each group with rows appears) |
| Database.LatestRecordsOnePerGroup | database.py:57-81 | when every group's timestamps are distinct, no two dashboard records share a group id |
| Database.GroupMaxIsUnique | database.py:60-64 | with distinct timestamps within each group, only one row of a group matches its MAX(timestamp) |
| Database.LatestRecords | database.py:52-81 | the dashboard records are exactly the records of rows with their group's largest timestamp, one or more for every group with rows, in group_id order |
| Database.StaleReadingKeepsLatest | database.py:43-68 | inserting a reading older than one already stored for its group leaves the result unchanged |
| Database.NewestReadingBecomesLatest | database.py:43-68 | inserting a reading newer than all of its group's rows makes it that group's only row in the result |
| Database.HistoryRowsOfGroup | database.py:87-90 | history rows are table rows of the group, each at most as often as stored; at most `limit` when `limit` is not negative; the whole group when the limit is negative or not reached |
| Database.HistoryRecords | database.py:83-103 | the records returned are those of group rows, newest first, at most `limit`, the whole group below the limit, with no newer group row left out |
| Database.HistoryNewestFirst | database.py:88 | the history is ordered by timestamp descending |
| Database.HistoryIsTopOfGroup | database.py:88-89 | every row of the group left out by the limit is no newer than every row returned |
| Database.HistoryOfUnknownGroup | database.py:87-90 | a group without rows has an empty history |
| Database.SavedRowIsVisible | database.py:43-90 | after an insert, the row's group has a non-empty history (for a non-zero limit) and appears in the latest-per-group result |
| Database.ValidRowsDistinct | database.py:23 | AUTOINCREMENT ids make the table's rows pairwise distinct |
| Server.ValidateEnvelope | app.py:27-39 | a body is accepted iff group_id and sensor_data are present and the group is configured; an accepted body keeps its fields; a refused body is refused for missing fields iff the body is absent or lacks group_id or sensor_data, and as an invalid group otherwise |
| Server.MissingRequired | app.py:30 | the missing-field test: the body is absent or lacks group_id or sensor_data; it has no contract of its own, and ValidateEnvelope's contract states its role |
| Server.RejectionMessage | app.py:30-39 | each rejection gets its own error text: "Missing required fields" exactly for missing fields, "Invalid group ID" exactly for an unknown group |
| Server.ReceiveEsp32Data | app.py:19-53 | 400 with "Missing required fields" or "Invalid group ID" for rejected bodies; 500 "Internal server error" when storage raises; 200 with "Data received from <group>" iff the body is valid and storage succeeds, in which case exactly one row is appended; any other code leaves the table unchanged |
| Server.GetDashboardData | app.py:55-66 | 200 with the latest-per-group records iff the query does not raise; otherwise 500 with the error text |
| Server.GetGroupData | app.py:68-79 | 200 with the group id echoed and its history under the default limit of 10 iff the query does not raise; otherwise 500 with the error text |
| Server.MissingFieldsReportedBeforeGroup | app.py:30-39 | the missing-field check precedes the group check |
| Server.UnknownGroupRejected | app.py:38-39 | a complete body with a group outside VALID_GROUPS is rejected as an invalid group |
| Server.TimestampDefaultsToServerTime | app.py:34 | a sent timestamp is kept as sent; an absent one becomes the server's current time |
| Server.GroupDataForUnknownGroupIsEmpty | app.py:68-79 | the group endpoint performs no membership check: a group id without rows, configured or not, gets 200 with an empty history |
| Device.HasSignificantChange | esp32-template.py:235-238 | an absent or empty previous reading always counts as a change |
| Device.ScanFields | esp32-template.py:241-248 | the key loop answers True only when some field moved, and raises only when some shared key pairs a number with a string; the converse of the first is ScanFindsMovedField, of the second ScanRaisesAtUnprecededMismatch |
| Device.ChangeCheck | esp32-template.py:215 | the first reading always counts as new; the check raises only when a previous reading exists and some shared key pairs a number with a string |
| Device.ScanFindsMovedField | esp32-template.py:240-248 | when no number-against-string pair comes before the first moved key, the verdict is whether some key shared by both readings moved (numbers strictly beyond the threshold, strings by differing) |
| Device.ScanRaisesOnlyOnMismatch | esp32-template.py:243-244 | the comparison raises only where a number meets a string under a shared key, and only when no earlier key moved |
| Device.ScanRaisesAtUnprecededMismatch | esp32-template.py:241-244 | a number meeting a string under a shared key raises TypeError when no earlier field moved, whatever fields follow |
| Device.NewOnlyKeyIgnored | esp32-template.py:241-242 | a key only the new reading has never affects the verdict, wherever it stands |
| Device.OldOnlyKeysIgnored | esp32-template.py:241-242 | extending a non-empty previous reading by keys the new reading lacks leaves the verdict unchanged; such keys never count as a change |
| Device.ConnectWifi | esp32-template.py:50-87 | returns at once with no wait when already connected; otherwise succeeds iff the link comes up within timeout+1 one-second polls, waiting exactly until then, or the full budget on failure |
| Device.EnsureWifi | esp32-template.py:89-105 | succeeds iff one of three attempts succeeds, stopping at the first success; waits 2^k seconds after failed attempt k, including the last |
| Device.FullFailureBacksOffSevenSeconds | esp32-template.py:99-102 | three failed attempts back off 1, 2 and 4 seconds, 7 in all |
| Device.Agent.Start | esp32-template.py:195-201 | the loop starts with the link as one ensure_wifi left it and no previous reading; the LED keeps the pin's initial level, which main_loop does not set |
| Device.DeviceEnvelope | esp32-template.py:151-156 | the posted object carries the device's group id, the current time and the reading |
| Device.LedAfterPost | esp32-template.py:168-180 | the LED level after a post is 0 or 1, and 1 exactly when the server answered 200 |
| Device.Agent.SendToServer | esp32-template.py:135-180 | posts the group id, the time, the reading and the device type; the LED is on iff the server answered 200 |
| Device.Agent.Step | esp32-template.py:204-233 | reconnects iff the link is missing or down; a failed sensor read or a raising comparison leaves the LED off, keeps the last reading, sends nothing and pauses 10 s; otherwise the reading is kept iff it is the first or changed, it is sent iff online, and the pause is 5 s |
| EndToEnd.DeviceEnvelopeAccepted | esp32-template.py:151-156 | the agent's envelope passes validation with its own group, timestamp and reading |
| EndToEnd.PostedReadingIsServed | app.py:33-42 | a posted and saved reading appears in its group's history and in the dashboard snapshot |

## Left out

- The `received_at` column and the `received_at` and `last_updated` reply fields are omitted: they come from the wall clock.
- JSON encoding and decoding are omitted. A payload is stored and returned as the same reading.
- Bodies that are not JSON objects are omitted, as are non-string group ids and sensor data that is not an object.
- Non-numeric or null timestamps are omitted. With them, SQLite's type affinity and the NOT NULL constraint would decide the outcome.
- Python's bool-is-int rule is omitted. Sensor values are numbers or strings.
- Numbers are modelled as reals, not floating point.
- Storage faults are modelled only before commit, so a failed save leaves the table unchanged.
- Failures while opening or closing a connection are not modelled separately: they answer 500 like any other exception.
- AUTOINCREMENT exhaustion at the 64-bit limit is not modelled.
- Concurrent requests and SQLite locking are not modelled. Each operation is atomic.
- Flask routing, the HTML dashboard routes, the browser script and server start-up (`init_database`, `app.run`) are not part of this model.
- The sensor hardware and `read_sensor_data`'s ADC conversion are omitted. A read is a supplied reading, or a failure.
- The console output of the agent and the server is omitted.
- The agent's top-level handler is omitted: a keyboard interrupt, or a crash followed by a restart (esp32-template.py:252-271). Only the main loop's own iterations are modelled.
- Device.ConnectWifi: the clock advances exactly one second per poll, and the time spent in `wlan.connect` is not modelled.
- Device.EnsureWifi: `waits` lists only the backoff sleeps. It does not include the polling inside each connect attempt, which ConnectWifi reports.
- Device.Agent.Step: a failure raised inside `ensure_wifi` or by `response.close()` is not modelled. Only failures of the sensor read and of the comparison are.
- The latest-per-group result contains every tied row and has no tie-break by id. A tie-break by id would return one row per group. The model follows the code.
