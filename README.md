# Sansil time-clock server: the decision logic of its handlers

The server (`server.js`) is an Express application over an SQLite file with
three tables: `funcionarios` (employees), `registros_ponto` (punches) and
`fotos_registros` (punch photos). Almost all of it is routing and SQL. This
project models its decision logic, and it treats the tables as in-memory
sequences of rows:

- **Lateness rule** of `POST /bater-ponto` (module `Lateness`). A punch
  label `tipo` that contains `"Entrada"` gets the marker `" (⚠️ ATRASO)"`
  appended when the local time is after 05:55. The marker's warning sign is
  U+26A0 followed by U+FE0F. The whole marker is 12 UTF-16 code units.
  `FinalKind` is the stored label. The lemmas state the rule exhaustively: labels without `"Entrada"` are never
  changed, clock-ins at or before 05:55 are not changed, later clock-ins get
  the marker exactly once, and lateness is monotone over the day. Further
  lemmas cover the boundary scenarios and the substring (not equality) match.
- **JavaScript string operations** (module `JsString`). `Includes` is
  `String.prototype.includes`. It is proved equal to a reference
  "occurs at some index" definition. `Utf16Length` is JavaScript's
  `length`, in UTF-16 code units.
- **Tables and handlers** (module `TimeClock`, class `Database`). It holds the
  three tables and their AUTOINCREMENT counters. `SaveEmployee` is
  `POST /admin/cadastrar-funcionario`:
  - it filters the profile photo with `FilterProfilePhoto`;
  - a truthy `id` runs the UPDATE, whose `IFNULL` keeps the old photo when
    the filtered one is null;
  - any other `id` runs the INSERT.

  `RegisterPunch` is `POST /bater-ponto`:
  - it looks up the first employee with the given name;
  - if there is none, it answers "not found" and changes nothing;
  - otherwise it appends one punch carrying `FinalKind`, plus one photo row
    linked to the new punch id exactly when `foto` is truthy.

  The invariant `Valid` holds before and after every handler:
  - ids are unique, positive and ascending in each table, and below the
    counter;
  - every punch names an employee id that was handed out;
  - every punch photo names an existing punch.

Decisions where the code is followed literally:

- The time comes from `getHours()`/`getMinutes()` of `new Date()`, that is,
  the host's local time zone. The code fixes no time zone, so hour and minute
  are plain inputs. A fixed UTC−03:00 reference zone is not modelled.
- Seconds play no part. 05:55:59 is on time and 05:56:00 is late. A
  seconds-level reading in which 05:55:01 is late does not match the code.
- `"Entrada"` is matched case-sensitively, anywhere in the label.
- The photo filter compares JavaScript's `length`, which counts characters
  outside the Basic Multilingual Plane twice. For ordinary text
  (`FilterKeepsLongPhotos`) this means "more than 100 characters".
- `includes` with the ASCII pattern `"Entrada"` on UTF-16 code units agrees
  with substring search on Unicode scalar values. An ASCII code unit never
  occurs inside a surrogate pair, so `Includes` works on Dafny strings.
- SQL `nome = ?` never matches a NULL on either side (`NameMatches`).
  `db.get` returns the first matching row in rowid order (`FirstByName`).
- `if (id)` is JavaScript truthiness. A missing, null or zero `id` inserts a
  new employee (`IsEdit`). An edit naming an id that no row has changes
  nothing and still answers success (`UpdateUnknownIdNoChange`).
- `if (foto)` is truthiness of a string: present and non-empty (`Truthy`).

## Model

| member | source | states |
|---|---|---|
| `Lateness.FinalKind` | server.js:116-120 | The stored label always starts with `tipo`. It is either `tipo` or `tipo` plus the marker. It differs from `tipo` exactly when `tipo` contains "Entrada" and the time is past minute 355 (05:55) of the day. |
| `Lateness.NonClockInUnchanged` | server.js:116-118 | A label without "Entrada" is stored unchanged at every hour and minute. |
| `Lateness.OnTimeClockInUnchanged` | server.js:118 | At 05:55 or earlier (hour < 5, or hour 5 and minute ≤ 55) any label is stored unchanged. |
| `Lateness.LateClockInMarked` | server.js:118-119 | A label containing "Entrada" after 05:55 gets the marker exactly once. Its length grows by 12, in characters and in UTF-16 code units. |
| `Lateness.AfterCutoffIffPastCutoffMinute` | server.js:118 | The hour/minute test equals "minutes since midnight > 5·60+55". |
| `Lateness.LatenessMonotone` | server.js:118-119 | If a label is marked at some time, it is marked at every later time of the same day. |
| `Lateness.LateMarkerLength` | server.js:119 | The marker is 12 characters and 12 UTF-16 code units long. |
| `Lateness.MarkedLabelStillClockIn` | server.js:116-122 | A marked label still contains "Entrada". Classifying it again would append a second marker, so the label is classified once, at insert time. |
| `Lateness.CutoffScenarios` | server.js:116-120 | "Entrada" is unchanged at 00:00 and 05:55, and marked at 05:56, 06:00 and 23:59. |
| `Lateness.PrefixLabelScenario` | server.js:118-119 | "Entrada Manhã" at 06:10 is marked. |
| `Lateness.InnerLabelScenario` | server.js:118-119 | "Turno Entrada" at 08:30 is marked: the word may appear anywhere in the label. |
| `Lateness.UnmarkedLabelScenarios` | server.js:116-118 | "Saída" at 23:00 and lower-case "entrada" at 07:00 are unchanged: the match is case-sensitive. |
| `JsString.IncludesIffOccurs` | server.js:118 | `tipo.includes(p)` holds exactly when `p` occurs at some index of `tipo`, as a contiguous substring. |
| `JsString.IncludesExtend` | server.js:119 | Appending text after a string keeps every occurrence it contains. |
| `JsString.Utf16Length` | server.js:73 | JavaScript's `length` lies between the number of characters and twice that number. |
| `JsString.Utf16LengthOfBmp` | server.js:73 | On text without astral characters, JavaScript's `length` equals the character count. |
| `JsString.Utf16LengthOfConcat` | server.js:119 | JavaScript's `length` is additive over concatenation. |
| `TimeClock.FilterProfilePhoto` | server.js:73 | The filtered photo is either null or the supplied photo. It is the supplied photo exactly when that is present and its `length` is > 100. |
| `TimeClock.FilterKeepsLongPhotos` | server.js:73 | For ordinary text, a photo is kept exactly when it has more than 100 characters. Otherwise it becomes null. |
| `TimeClock.FilterDropsShortPhotos` | server.js:73 | A missing photo, or one of at most 50 characters, is always dropped. |
| `TimeClock.FirstByName` | server.js:108-109 | The lookup finds nothing exactly when no row's name equals the requested non-null name. Otherwise it gives the first row whose name matches. |
| `TimeClock.FirstByNameAppend` | server.js:108 | After an INSERT, an earlier match keeps priority. A name that only the new row has now finds the new row. Any other name still finds nothing. |
| `TimeClock.EditedRow` | server.js:77-81 | The edited row keeps its id. Its photo is the new photo when non-null, otherwise the old one (`IFNULL`). |
| `TimeClock.UpdateWhereId` | server.js:77-82 | The UPDATE keeps the number of rows. It edits every row with the given id and leaves every other row unchanged. |
| `TimeClock.UpdateUnknownIdNoChange` | server.js:77-82 | An UPDATE naming an id that no row has leaves the table unchanged. |
| `TimeClock.EditChangesOnlyThatEmployee` | server.js:75-82 | With unique ids, editing an employee overwrites its name, lunch window, workdays and biometric id. It replaces its photo only by a non-null filtered photo and changes no other row. |
| `JsString.Includes` | server.js:118 | No contract of its own. Definition: false when `s` is shorter than `p`; otherwise true when `p` is a prefix of `s` or `p` is included in `s` without its first character. `IncludesIffOccurs` states its meaning. |
| `Lateness.AfterCutoff` | server.js:118 | No contract of its own. Definition: `hour > 5 || (hour == 5 && minute > 55)`, the time test of the handler. `AfterCutoffIffPastCutoffMinute` states its meaning. |
| `TimeClock.IsEdit` | server.js:75 | No contract of its own. Definition: JavaScript truthiness of the request `id`, that is, present and not 0. |
| `TimeClock.Truthy` | server.js:127 | No contract of its own. Definition: JavaScript truthiness of the punch `foto`, that is, present and not the empty string. |
| `TimeClock.NameMatches` | server.js:108 | No contract of its own. Definition: SQL `nome = ?`, true when the requested name is non-null and equals the row's name. A NULL on either side never matches. |
| `TimeClock.IfNull` | server.js:80 | No contract of its own. Definition: SQLite `IFNULL(a, b)`, which is `a` when `a` is non-null and `b` otherwise. |
| `TimeClock.Database.Valid` | server.js:14-35 | No contract of its own. Definition: every counter is positive. In each table the ids strictly ascend in rowid order, are positive and lie below the AUTOINCREMENT counter. Every punch names an employee id below the employee counter. Every punch photo names the id of an existing punch. |
| `TimeClock.Database.constructor` | server.js:13-36 | A new database has empty tables and every AUTOINCREMENT counter at 1. |
| `TimeClock.UpdateKeepsIdsAscend` | server.js:77-82 | The UPDATE changes no id, so the ids stay unique, positive and ascending. |
| `TimeClock.Database.UpdateEmployee` | server.js:77-82 | Keeps `Valid`. The employee table becomes the UPDATE of the old one. |
| `TimeClock.Database.InsertEmployee` | server.js:88-89 | Keeps `Valid`. Appends one employee under the next id and advances the counter. |
| `TimeClock.Database.SaveEmployee` | server.js:71-94 | Keeps `Valid`. An edit replaces the employee table with the UPDATE of the filtered request. An insert appends one employee under the next id and advances the counter. Punches and punch photos are unchanged. |
| `TimeClock.Database.InsertPunch` | server.js:122-126 | Keeps `Valid`. Appends one punch under the next id, advances the counter and returns that id. |
| `TimeClock.Database.InsertPunchPhoto` | server.js:127-129 | Keeps `Valid`. Appends one photo row referencing an existing punch, under the next id. |
| `TimeClock.Database.RegisterPunch` | server.js:105-133 | Keeps `Valid`. The employee table never changes. An unknown name answers "not found" and changes no table. Otherwise it appends exactly one punch: the next id, the first matching employee's id, and the date, time and `FinalKind` label. It appends one photo row referencing that punch exactly when `foto` is truthy. |

## Left out

- HTTP routing, CORS, body-size limits, static files, the index page and
  server start-up (server.js:38-43, 135-141) are plumbing with no decisions.
- Table creation and every `err` branch of the SQLite callbacks
  (server.js:13-36, 56, 65, 83, 90, 99, 109, 124): database I/O failures are not
  modelled. The handlers are modelled as if every statement succeeds. At
  server.js:109, `if (err || !row)` answers a lookup error with the same 404
  as a missing employee. The model gives that 404 only for a missing
  employee.
- `GET /admin/pontos` (the JOIN and its ORDER BY), `GET /admin/equipe` and
  `DELETE /admin/excluir-funcionario/:nome` (server.js:48-68, 97-102) pass
  SQL straight through. They have no application logic.
- Reading the clock and formatting it with `toLocaleDateString` and
  `toLocaleTimeString` (server.js:112-114): the date and time strings are
  opaque inputs, and hour and minute are parameters. The model does not tie
  them to one instant.
- The photo INSERT at server.js:128 is issued without waiting for it and its
  error is ignored. Only its effect is modelled, as if it completes before
  the reply.
- `nome`, `turnoAlmoco`, `diasTrabalho`, `foto_perfil`, `id_biometria`,
  `funcionario`, `tipo` and `foto` are modelled as strings or null, and `id`
  as an integer or null. Non-integer numbers, booleans, arrays and objects
  are not modelled. For example, an `id` of `1.5` is truthy at server.js:75,
  the UPDATE at server.js:77-82 then matches no row, and the handler still
  answers success. The model cannot take that input.
- A `tipo` that is an array is not modelled. Arrays have their own
  `includes`, so `["Entrada"]` at 07:00 passes the test on server.js:118, and
  server.js:119 stores the string "Entrada (⚠️ ATRASO)".
- A missing, null or numeric `tipo` is not modelled. `tipo.includes` then
  throws a TypeError inside the `db.get` callback (server.js:108-118), and
  nothing there catches it. Express does not catch errors thrown in
  asynchronous callbacks, so no reply is sent. By Node's default the process
  exits, and no punch is recorded.
- Strings that are not well-formed UTF-16 are not modelled. JSON may carry
  unpaired surrogates (`"\ud800"`), and a Dafny `string` holds only Unicode
  scalar values. JavaScript's `length` counts an unpaired surrogate as one
  unit, so such a photo can pass the filter at server.js:73, but
  `FilterProfilePhoto` cannot take it as input. The model covers
  well-formed UTF-16 text only.
- SQLite type affinity and the foreign-key clauses: foreign keys are not
  enforced by default, so the model states the reference properties as the
  `Valid` invariant that the handlers keep.
