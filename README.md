# Portfolio site storage core, modelled in Dafny

The portfolio site stores two tables: `projects` (the portfolio items) and
`messages` (contact-form submissions). This model covers three things:

- **The project seed reconciler** (`init_db`). It runs once at startup. It merges a
  fixed, ordered list of four canonical projects into the `projects` table. For
  each canonical entry it finds the first stored row with the same title and
  updates that row by field rules. If no row has the title, it appends a new row.
- **Contact admission**. The form's name, email and message are stripped of
  whitespace. If any of them is then empty, nothing is stored. Otherwise one
  message row is appended.
- **The newest-first listings** of both tables.

Layout:

- `wrappers.dfy`: `Option`, used for nullable columns and absent form fields.
- `text.dfy`: Python's `str.strip()` and its whitespace set.
- `models.dfy`: the `Project` and `Message` rows, and the append-only table invariant.
- `seed.dfy`: the canonical list, the merge rules and `Reconcile`. `Reconcile` is
  the whole startup pass as one pure transition. The lemmas about it are here too.
- `admission.dfy`: the contact-form check (`Admit`).
- `listing.dfy`: the descending sort by creation time and its properties.
- `database.dfy`: the class `Database`. It holds both tables, the next ids and
  the clock. Its methods are the startup pass (`InitDb`, whose loop
  `SeedCatalog` updates rows in place and is proved equal to `Reconcile`) and
  the route handlers that use storage.

Modelling choices:

- `description` is a NOT NULL column, so it is a `string`. The nullable text
  columns are `Option<string>`. Python's `not x` on a column means "None or empty".
- Storage-generated ids come from a `nextId` counter. Timestamps (`datetime.utcnow`)
  come from an abstract `clock` that advances by one on every insert. One clock
  serves both tables.
- The title lookup (`filter_by(title=...).first()`, which has no ORDER BY) is
  modelled as the lowest-positioned row, in insertion order, whose title is
  exactly equal, case and all. This is a modelling choice: SQL fixes neither
  the row order nor the comparison (see "## Left out").
- Rows added earlier in a pass are visible to later lookups in the same pass,
  as with the session's autoflush. The loop therefore works on one table value
  that it updates as it goes.
- The single `commit` at the end makes the pass one atomic state transition.
- The image rule at app.py:94 tests the text prefix `"http"`, not a URL
  scheme, so a value like `"httpdocs/a.png"` is replaced too.
- Duplicate titles already stored stay in the table. The lookup at app.py:86
  touches only the first of them, so a canonical title ends with exactly one
  row only if it had at most one before (`ReconcileCount`).

## Model

| member | source | states |
|---|---|---|
| Seed.FindByTitle | app.py:86 | the result is the index of the first row with the title, or None exactly when no row has it |
| Seed.IsBlank | app.py:89-94 | no contract of its own: the definition of Python's `not x` on a nullable text column (None or ""); used by `ReconcileMatchedFields` |
| Seed.NeedsCanonicalImage | app.py:94 | no contract of its own: the definition of the image test (blank, "#" or prefixed "http"); used by `ReconcileMatchedFields` |
| Seed.NewRow | app.py:99-107 | the inserted row carries the entry's title, the given id and the given creation time; it is already settled, so the merge rules leave it unchanged |
| Seed.ApplyEntry | app.py:86-108 | no contract of its own: one iteration of the pass on the table value; specified by `ApplyEntryPreservesValid` and by `SeedOne`, the in-place loop body proved equal to it |
| Seed.Reconcile | app.py:85-108 | no contract of its own: the whole pass, catalog entry by entry in order; specified by `ReconcileFrame`, `ReconcileMatched`, `ReconcileMatchedFields`, `ReconcileCount`, `ReconcileInserted`, `ReconcileInsertionOrder`, `ReconcilePreservesValid` and `ReconcileIdempotent` |
| Seed.Merge | app.py:88-98 | merging a matched row keeps its id, title and creation time |
| Seed.ReconcileFrame | app.py:85-108 | the pass deletes no row; it changes no row's id, title or creation time; it touches only the first row of each canonical title; every appended row has a canonical title; the next id and the clock never go back |
| Seed.ReconcileMatched | app.py:86-98 | if row i is the first row with entry k's title, after the whole pass row i is that row merged with entry k; later entries do not touch it |
| Seed.ReconcileMatchedFields | app.py:89-98 | on a matched row, description and tech stack take the canonical value exactly when blank and are kept otherwise; the image is replaced exactly when blank, "#" or prefixed "http" and is kept otherwise; both links always take the canonical values |
| Seed.ReconcileCount | app.py:85-108 | after the pass, a canonical title that had no row has exactly one; every other title keeps its row count, so a matched title gets no new row |
| Seed.ReconcileInserted | app.py:99-108 | an entry whose title was not stored yields exactly one row with that title; it is appended after the old rows and carries every canonical field, a fresh id and a timestamp no earlier than the clock |
| Seed.ReconcileInsertionOrder | app.py:85-108 | when no canonical title is stored, the pass appends one row per entry in catalog order, with consecutive ids and timestamps |
| Seed.ReconcilePreservesValid | app.py:100-108 | the pass keeps the table invariant: ids and creation times strictly increase in table order and stay below the next id and the clock |
| Seed.MergeIdempotent | app.py:88-98 | merging any entry twice gives the same row as merging it once |
| Seed.SettledIsFixedPoint | app.py:85-108 | if every entry is already settled (its first row is unchanged by merging), the pass leaves the table unchanged |
| Seed.ReconcileSettles | app.py:85-108 | after a pass with a well-formed catalog, every entry is settled |
| Seed.ReconcileIdempotent | app.py:85-110 | with distinct titles, non-empty descriptions and tech stacks and local images, a second pass over the output of the first changes nothing |
| Seed.CanonicalWellFormed | app.py:51-84 | the constant `CanonicalProjects`, the four entries of the list in order, has distinct titles, non-empty descriptions and tech stacks, and image paths that are non-empty, not "#" and not prefixed "http" |
| Seed.InitDbIdempotent | app.py:51-110 | re-running the startup pass on its own output, from any table, changes nothing |
| Seed.InitDbOnEmptyTable | app.py:51-108 | on an empty table the startup pass stores exactly the four canonical projects, in canonical order |
| Seed.ApplyEntryPreservesValid | app.py:86-108 | one iteration keeps the table invariant |
| App.Database.constructor | app.py:49 | a freshly created store has empty tables and satisfies the invariant |
| App.Database.InitDb | app.py:47-110 | the startup pass over the canonical list leaves the projects table equal to `Reconcile` of the old table; messages are untouched; the invariant of both tables is kept |
| App.Database.SeedCatalog | app.py:85-108 | the loop over a catalog, updating rows in place, leaves the projects table equal to `Reconcile` of the old table over that catalog; messages are untouched, the clock does not go back and the invariant of both tables is kept |
| App.Database.SeedOne | app.py:86-108 | one iteration updates the first row with the entry's title by the merge rules, or appends a new row with the next id and the clock, exactly as `ApplyEntry` says, and keeps the invariant of both tables |
| App.Database.Contact | app.py:125-145 | a rejected submission leaves the store unchanged and answers "fill in all fields"; an accepted one appends exactly one message with the stripped values, the next id and the current clock, and answers "sent"; the projects table is untouched; the invariant is kept, so the new message's timestamp is later than every earlier one |
| App.Database.Record | app.py:135-138 | storing an accepted submission appends exactly one message row stamped with the next id and the clock, keeping the invariant; a rejected one stores nothing |
| App.Database.Home | app.py:120-123 | the listing holds every project, sorted by creation time newest first; it is the table reversed |
| App.Database.AdminMessages | app.py:147-151 | the listing holds every message, sorted by creation time newest first; it is the table reversed |
| App.Database.ApiMessages | app.py:153-167 | the JSON listing holds every message newest first, and its total is the number of stored messages |
| Admission.FormField | app.py:127-129 | a field, absent read as "", is stripped: it is the raw value with its leading whitespace removed and then a whitespace tail removed; it has no whitespace at either end; it is empty exactly when the raw value was all whitespace |
| Admission.Admit | app.py:127-133 | a submission is rejected exactly when some field is absent or all whitespace; an accepted one carries the three stripped, non-empty values |
| Admission.FormFieldIdempotent | app.py:127-129 | reading back a value that was already read and stripped gives it unchanged |
| Admission.AdmitStoredValues | app.py:127-131 | the stored values of an accepted submission, submitted again, are accepted unchanged |
| Text.IsSpace | app.py:127 | no contract of its own: the code points Python's `str.isspace()` accepts, which `str.strip()` removes |
| Text.LeadingSpace | app.py:127 | the count is the length of the longest prefix made only of whitespace |
| Text.TrailingSpace | app.py:127 | the count is the length of the longest suffix made only of whitespace |
| Text.TrimStart | app.py:127 | the result is a suffix of the input; everything dropped is whitespace; it does not start with whitespace |
| Text.TrimEnd | app.py:127 | the result is a prefix of the input; everything dropped is whitespace; it does not end with whitespace |
| Text.Strip | app.py:127 | the result has no whitespace at either end; it is the input with its leading whitespace removed (`TrimStart`) and then a tail that is all whitespace removed |
| Text.StripEmptyIff | app.py:131 | stripping gives the empty string exactly when the input is all whitespace |
| Text.StripIdempotent | app.py:127-129 | stripping twice is stripping once |
| Listing.InsertDesc | app.py:122 | no contract of its own: inserting one element into a sequence sorted newest first; specified by `InsertDescSorted` and `InsertDescPermutes`; it serves all three `order_by(created_at.desc())` listings, at app.py:122, 150 and 156 |
| Listing.NewestFirst | app.py:122 | no contract of its own: `order_by(created_at.desc())` as an insertion sort, used by all three listings, at app.py:122, 150 and 156; specified by `NewestFirstSorted` and `NewestFirstReverses` |
| Listing.InsertDescSorted | app.py:122 | inserting into a sequence sorted newest first keeps it sorted newest first; it serves all three `order_by(created_at.desc())` listings, at app.py:122, 150 and 156 |
| Listing.InsertDescPermutes | app.py:122 | inserting keeps every element and adds exactly the one inserted; it serves all three `order_by(created_at.desc())` listings, at app.py:122, 150 and 156 |
| Listing.NewestFirstSorted | app.py:122 | newest first is a permutation of its input, sorted by creation time descending; it serves all three `order_by(created_at.desc())` listings, at app.py:122, 150 and 156 |
| Listing.NewestFirstReverses | app.py:122 | when creation times strictly increase in table order, newest first is the table reversed; it serves all three `order_by(created_at.desc())` listings, at app.py:122, 150 and 156 |
| Models.InsertionOrderedAppend | app.py:42 | appending a row stamped with the next id and the current clock keeps the append-only invariant |

## Left out

- HTTP glue is not modelled: Flask routing, `render_template`, `redirect`/`url_for`, `flash`, the `current_year` context processor and the static `messages_page` route (app.py:4, 112-114, 120-121, 123, 125-126, 132-133, 139, 145, 147-149, 151, 169-172). The `Notice` result of `Contact` replaces the flash messages.
- Storage failures are not modelled: the `try`/`except` around the message insert, `rollback` and error logging (app.py:135-143). Every write is assumed to succeed. `create_all` on a fresh database is the `Database` constructor; on an existing database it keeps the rows, and `InitDb` accepts any store that satisfies the invariant. Each `commit` is the end of one atomic method.
- Configuration and process start-up are not modelled: dotenv, `SECRET_KEY`, the database URI choice, the port and `app.run` (app.py:9-17, 177-180). The call of `init_db` inside the application context (app.py:116-118) runs when `create_app()` builds the application, at process start-up; it is `InitDb` called on the store.
- Timestamp rendering in the JSON listing is not modelled: `isoformat` and `strftime` (app.py:164-165). The returned rows carry the abstract timestamp.
- read_messages.py is not part of this model. It is a read-only sqlite3 reporting script that prints to stdout.
- static/js/main.js is not part of this model. It is browser UI code: the theme toggle, DOM updates and a canvas animation.
- The title lookup of the startup pass (app.py:86) is modelled as exact, case-sensitive string equality that picks the lowest-positioned matching row. The source leaves both to the storage engine. A query without ORDER BY has no defined row order. MySQL, which app.py:13-15 prefers, compares strings case-insensitively under its default collations. There a stored "connectify" row would be merged rather than a new "Connectify" row appended, so `ReconcileCount` and `ReconcileInserted` describe the exact-match behaviour only. With duplicate titles, `InitDbIdempotent` also relies on the lookup picking the same row on both runs.
- Column length limits (`String(200)`, `String(300)`, `String(500)`) are not modelled. SQLite, the default (app.py:14), ignores them. MySQL rejects or truncates over-long values, depending on its SQL mode, and a rejection is a storage failure, which is left out above.
- The clock ticks strictly on every insert. `datetime.utcnow` can return equal values for two inserts; the model does not capture such ties.
- The sort order among rows with equal timestamps is not modelled as the database gives it. Under the table invariant, timestamps never tie.
- Seed.ReconcileInserted: states that the new row's id and timestamp are no earlier than the old next id and clock, not their exact values. Seed.ReconcileInsertionOrder gives the exact values when no canonical title is stored.
