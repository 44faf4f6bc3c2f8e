# Shift roster (malla de turnos): a Dafny model

This project models the roster core of a shift-scheduling application. The
application exists in two versions:

- a single-file application, `malla.py`;
- a packaged version whose database layer is `database.py`.

Both versions create six tables. Five are modelled:

- an assignment table `malla_turnos`, with one shift code (possibly NULL) per employee, month, year and day, unique on that key;
- an employee table, ordered by `numero`;
- a shift-code table;
- a typed configuration table;
- a user table `usuarios`, with each user's password hash, role, name and department (used by login and authentication).

The sixth, the `logs` table, is left out.

Both versions show the month as a *wide grid*: one row per employee, its
attributes, and one column per day labelled `d/m/y`.

The model takes those tables and the grid as plain values:

- The assignment table is `Store = map<SlotKey, Option<string>>`. Its key is the table's unique key, so "INSERT OR REPLACE" is a map update.
- A grid is `Grid(columns, rows)`. Every row holds its attributes and a map from column label to cell, and a cell is either text or NaN (`Missing`).
- Column labels are strings. This matters because `database.py` reads the day back out of a label with `int(col.split("/")[0])`.

The model is organised as follows:

- Loading and saving the grid are loops in both versions. They are modelled as methods with loop invariants. Each method is proved against a specification function (`malla.py`) or a direct characterisation (`database.py`, whose load applies the month's stored rows in no particular order). Lemmas about those specifications then state what the source promises: shape, cell contents, the frame of a save, idempotence, and the load–save round trip.
- The shift-code registry and the configuration are dict-filling loops. They are modelled as methods over a shared "dict assignment" fold (`Roster.Assign`).
- The statistics under the grid are modelled as methods: counting per code in dict insertion order, summing the counts, and weighting them by hours.
- Permissions, login and authentication are pure functions. The password hash is a function-typed parameter.

Modules:

- `Wrappers` provides `Option`.
- `Strings` models Python's `str(int)`, `int(str)`, `split`, `join` and `strip`.
- `Roster` holds the shared entities, the column labels, the dict-assignment fold, `get_turnos_empleado_mes` and the Gregorian calendar the day rules are compared with.
- `Malla` covers the grid, codes and configuration of `malla.py`.
- `Access` covers `ROLES`, `check_permission` and `login` in `malla.py`.
- `Statistics` covers the grid statistics in `malla.py`.
- `Database` covers `database.py`.

The two day-count rules are modelled as written:

- `malla.py` gives February 28 days only in 2026, and 31 in every other year.
- `database.py` gives February 28 days in every year.

Lemmas state exactly where each rule departs from the calendar, and where the two rules differ from each other.

## Model

| member | source | states |
|---|---|---|
| Malla.DaysInMonth | malla.py:425-431 | Always 28, 30 or 31; 28 exactly for February 2026; 30 exactly for April, June, September and November. |
| Malla.DaysInMonthVersusCalendar | malla.py:425-431 | Agrees with the Gregorian calendar for every month except February of any year but 2026, which gets 31 days. |
| Malla.LoadedRowShows | malla.py:412-423 | Adding day columns to an employee's row leaves the employee's attributes unchanged. |
| Malla.LoadedRowKeys | malla.py:452-455 | A row loaded up to day n has a column for exactly days 1..n. |
| Malla.LoadedRowCell | malla.py:449-461 | The cell of day d is the stored code ("" when NULL or when no row is stored) for 1 <= d <= n, and NaN for any other day. |
| Malla.LoadedRowSameShown | malla.py:452-461 | Two stores that show the same codes for days 1..n give equal rows. |
| Malla.CollectMonth | malla.py:444-450 | `turnos_dict` holds a day exactly when the month has a stored row for that employee and day, and maps it to the shown code. |
| Malla.AddDayColumn | malla.py:452-461 | One pass of the day loop extends every row by the next day's cell, taken from `turnos_dict` or "". |
| Malla.LoadGrid | malla.py:400-468 | The loops build exactly `LoadedGrid`: nothing without employees, otherwise one loaded row per employee. |
| Malla.LoadedGridShape | malla.py:405-461 | Empty without employees. Otherwise one row per employee showing its attributes, with exactly the columns 1..n, each holding the shown code. |
| Malla.LoadedGridKeepsNumeroOrder | malla.py:412-413 | Rows come out in employee-list order, so they are sorted by `numero` when the list is. |
| Malla.RowWritesAt | malla.py:495-509 | A row writes exactly the keys of its employee, this month and a day 1..n whose column the grid has, each with the cell's saved code. |
| Malla.SaveGrid | malla.py:470-512 | The nested loops leave exactly `Saved`: the upserts of every row with a known cédula, in row order. |
| Malla.WriteRow | malla.py:494-509 | The day loop of one row adds exactly that row's upserts for days 1..n to the table. |
| Malla.SaveRowsStep | malla.py:488-494 | One more row adds its upserts exactly when its cédula is known, and otherwise leaves the result as it was. |
| Malla.SaveRowsOverlay | malla.py:488-510 | A save lays the same writes over whatever was stored before. |
| Malla.SavedIsOverlay | malla.py:470-512 | The saved store is the old store overlaid with the writes of the grid. |
| Malla.SaveIdempotent | malla.py:495-510 | Saving the same grid twice leaves the same store as saving it once. |
| Malla.SaveRowsWrites | malla.py:489-510 | Every write is for this month and a day 1..n whose column the grid has, by a row whose CC is a known cédula; the code is NULL or stripped. |
| Malla.SaveFrame | malla.py:489-510 | Other months, out-of-range days and employees no grid row names keep their entries unchanged. |
| Malla.SaveNormalisesCodes | malla.py:499-503 | Every code a save changes is NULL or stripped text. |
| Malla.SaveRowsLastRowWins | malla.py:488-510 | A key holds the saved code of the last row that writes it. |
| Malla.SaveCell | malla.py:496-509 | For a known employee's day column, the entry exists and is NULL exactly when the cell is NaN or "" (it is kept, not deleted); otherwise it is the stripped text. |
| Malla.MonthAfterSave | malla.py:514-531 | After a save, the employee's month lookup holds, for each day 1..n with a column, the code saved from that row's cell. |
| Malla.RowsFindOwnIds | malla.py:477-494 | When row j carries employee j's cédula and cédulas and ids are unique, row i's CC finds employee i's id, and no later row finds it. |
| Malla.LoadedRowsCarryCedulas | malla.py:412-423 | Row j of a loaded grid carries employee j's cédula, one row per employee. |
| Malla.SavedEntryOfRow | malla.py:488-509 | Saving such a grid writes, for each employee and each day 1..n with a column, the saved code of that employee's cell. |
| Malla.SavedShownCode | malla.py:449-450 | For stripped stored codes, saving the shown text gives back the code that was shown. |
| Malla.SavedLoadedEntry | malla.py:470-512 | Saving a loaded grid writes, for each employee and day 1..n, the saved form of the code the grid shows. |
| Malla.SavedLoadedCell | malla.py:400-512 | Saving a loaded grid unchanged keeps the shown code of every employee and day. |
| Malla.LoadSaveRoundTrip | malla.py:400-512 | Loading, saving unchanged and loading again gives the same grid, provided stored codes are NULL or stripped and the employee keys are unique. |
| Malla.ShiftCodes | malla.py:352-367 | The registry's keys are "" plus every stored code. A code's entry comes from its last row. "" is "Sin Asignar", white, 0 hours unless a stored row overrides it. |
| Malla.Configuration | malla.py:369-398 | Fails (None) exactly when a row raises. Otherwise the keys are the defaults plus the stored keys, a stored key holds its last row's decoded value, and an untouched default keeps its value. |
| Malla.DepartmentsSplitAtCommas | malla.py:392-393 | The departments list is the stored text cut at every comma: the items contain no comma and joining them gives the text back. |
| Access.CheckPermission | malla.py:643-649 | False when not signed in and for an unknown or missing role; an allowed permission is one of the five known ones. |
| Access.PermissionsByRole | malla.py:536-549 | Per permission, both directions: read for every known role, write for admin and supervisor, delete/configure/manage_users for admin only. |
| Access.RolesNested | malla.py:536-549 | Whatever an empleado may do a supervisor may, and whatever a supervisor may do an admin may. |
| Access.Login | malla.py:588-629 | Succeeds exactly when the user exists and the password's hash equals the stored one; then signs in with that username, the stored role and the stored nombre and departamento as user data; otherwise the session is unchanged. |
| Access.LoginGrantsRolePermissions | malla.py:601-615 | After a successful login the session holds exactly the stored role's permissions; a failed login changes none. |
| Access.SignedOutHoldsNothing | malla.py:631-646 | A signed-out session holds no permission. |
| Statistics.DayColumns | malla.py:994 | The day columns are exactly the columns whose label contains "/". |
| Statistics.ColumnCodesMembers | malla.py:1002-1005 | A column lists a code exactly when some row holds that non-empty text there, at most one per row. |
| Statistics.GridCodesMembers | malla.py:1001-1005 | The grid lists a code exactly when some row holds it in some day column. |
| Statistics.GridCodesBound | malla.py:1001-1005 | At most one code is counted per cell. |
| Statistics.TallyCounts | malla.py:1001-1005 | The count of each code is its number of occurrences, and only occurring codes are counted. |
| Statistics.FirstSeenOrder | malla.py:1001-1005 | The dict's insertion order lists every counted code exactly once. |
| Statistics.OccurrenceSumOne | malla.py:1007 | Summing the counts gives the number of counted cells. |
| Statistics.WeightedSumUpdate | malla.py:1010-1013 | Changing one count changes the weighted sum by that difference times its weight. |
| Statistics.WeightedTally | malla.py:1010-1013 | Weighting the counts in insertion order equals weighting every occurrence. |
| Statistics.TallyKeysFirstSeen | malla.py:1001-1005 | A code is counted exactly when it occurs, i.e. when it is in the first-seen order. |
| Statistics.ActiveCount | malla.py:1027-1030 | Active rows are at most all rows; none exactly when no row is "Activo", and all exactly when every row is. |
| Statistics.ColumnCodesStep | malla.py:1003-1005 | One more row adds that row's code to the column, if it holds a shift. |
| Statistics.CountStep | malla.py:1005 | Counting one more code adds one to its count and appends it to the order when it is new. |
| Statistics.CountColumn | malla.py:1003-1005 | The inner loop extends the tally and the insertion order by the column's codes. |
| Statistics.CountShifts | malla.py:1001-1005 | The counting loops give the tally and insertion order of the grid's codes. |
| Statistics.SumCounts | malla.py:1007 | The total is the weighted sum of the counts with weight one. |
| Statistics.SumHours | malla.py:1010-1013 | The hours loop gives the weighted sum of the counts by each code's hours (0 when the code is unknown). |
| Statistics.GridStatistics | malla.py:991-1030 | Nothing exactly when the grid has no rows or no day columns. Otherwise: the row count; the tally with its keys and multiset counts; total shifts equal to the number of shift cells; hours as the per-occurrence sum; and the active count. |
| Roster.HeaderNamesItsDay | database.py:294-296 | A day label contains "/" and `int` of the text before the first "/" is the day. |
| Roster.HeadersDiffer | malla.py:453-455 | Different days of one month have different column labels. |
| Roster.IdByCedulaFinds | malla.py:477-478 | The cédula map finds exactly the listed cédulas, each mapped to a listed employee's id, and to that employee's own id when cédulas are unique. |
| Roster.RegisterCodes | database.py:338-344 | The registry loop yields the dict-assignment fold of the rows over the initial dict. |
| Roster.RegisteredCodes | malla.py:359-365 | Keys are the initial keys plus the stored codes; the last row for a code wins; untouched initial entries are kept. |
| Roster.DecodeConfiguration | database.py:356-366 | The configuration loop fails exactly when some row does not decode, and otherwise yields the fold of the decoded rows. |
| Roster.DecodedConfiguration | malla.py:386-396 | Keys are the initial keys plus the stored keys; the last row for a key wins; untouched initial entries are kept. |
| Roster.AssignOverInit | malla.py:359-365 | Filling a dict onto initial entries is filling an empty dict and putting it over them. |
| Roster.EmployeeMonth | database.py:306-323 | The month lookup has exactly the stored days of that employee and month, each with its stored (possibly NULL) code; the same query appears at malla.py:514-531. |
| Strings.IntToStringRoundTrip | database.py:296 | `int(str(x)) == x` for every integer. |
| Strings.ParseIntRejectsSeparator | database.py:359 | `int()` raises on text ending with one of U+001C..U+001F, although `strip()` removes that character. |
| Strings.SplitThenJoin | malla.py:393 | Joining the parts of a split gives back the text. |
| Strings.JoinThenSplit | database.py:364 | Splitting a join of comma-free parts gives the parts back. |
| Strings.StripSlice | malla.py:503 | `strip()` removes exactly the leading and trailing whitespace (ASCII and Unicode, as `str.isspace()` defines it): the result is a slice with whitespace outside it and non-whitespace ends, empty exactly for all-whitespace text. |
| Strings.StripIdempotent | malla.py:503 | Stripping twice is stripping once. |
| Database.DbDaysInMonth | database.py:244-248 | Always 28, 30 or 31: 28 exactly for February, 30 exactly for April, June, September and November. |
| Database.DbDaysInMonthVersusCalendar | database.py:244-248 | Agrees with the calendar except in February of a leap year, which loses its 29th day. |
| Database.DayRulesCompared | database.py:244-248 | The two versions agree on every month except February of any year but 2026, where malla.py gives 31 and database.py 28. |
| Database.BlankGrid | database.py:250-252 | One row per employee and the columns 1..dias, every cell "" (the malla.py row loaded from an empty table). |
| Database.SetCells | database.py:262-264 | The rows of the matching employee get the value in that column; other rows are unchanged. |
| Database.FilledAtStart | database.py:250-259 | The blank grid is the fill loop's state before any stored row is applied. |
| Database.FillSkip | database.py:262-263 | A stored row of an employee nobody has changes nothing. |
| Database.FillApply | database.py:261-264 | Applying a stored row sets that employee's cell of the row's day, adding the day's column at the end when it is new. |
| Database.FillApplyCells | database.py:262-264 | The cells after applying one stored row. |
| Database.FillApplyColumns | database.py:264 | The columns after applying one stored row: days 1..dias first, each label once, the extras being the applied out-of-range days. |
| Database.FillApplyRows | database.py:262-264 | Setting one employee's cell keeps every row showing its employee and every cell under a column of the grid. |
| Database.ExtraColumnsInRange | database.py:264 | Applying a stored day inside 1..dias leaves the extra columns unchanged. |
| Database.FillApplyExtraColumn | database.py:264 | Applying a stored day outside 1..dias appends its label once, keeping 1..dias first and all labels distinct. |
| Database.DbLoadGrid | database.py:237-279 | Empty without employees. Otherwise, in any order of the stored rows: one row per employee showing its attributes; columns 1..dias followed once by each other stored day; cells are the stored code ("" for NULL), "" for unstored days 1..dias, NaN otherwise. |
| Database.DbWriteRow | database.py:294-301 | The column loop of one row raises exactly when the fold of its upserts does, and otherwise adds those upserts. |
| Database.DbSaveGrid | database.py:281-304 | The nested loops give exactly the fold of upserts (None, nothing committed, when a label's day is not an integer). |
| Database.DbRowWritesStep | database.py:294-296 | One more column raises exactly when earlier columns do or its label contains "/" but does not start with an integer. |
| Database.DbRowWritesFails | database.py:294-296 | A row's upserts raise exactly when some label containing "/" does not start with an integer. |
| Database.BadColumnSnoc | database.py:294-296 | A bad label occurs in a longer column list exactly when it occurs earlier or is the new one. |
| Database.DbSaveRowsFails | database.py:289-303 | A save raises exactly when some row is not skipped and some label is bad, whatever the table holds. |
| Database.SeparatorLabelIsBad | database.py:294-296 | A "/" label whose day part ends with one of U+001C..U+001F is bad, so saving a row with it raises. |
| Database.NamedInSnoc | database.py:294-296 | A day is named in a longer column list exactly when it is named earlier or by the new label. |
| Database.DbRowWritesKeys | database.py:294-301 | A row upserts exactly the keys of its employee and month for the days its labels name. |
| Database.DbRowWritesLastColumnWins | database.py:294-301 | A day's upsert holds the cell of the last column naming that day. |
| Database.DbSaveRowsOverlay | database.py:289-303 | A save lays the same writes over the old table, and whether it raises does not depend on the table. |
| Database.DbSavedIsOverlay | database.py:281-304 | The saved table is the old one overlaid with the grid's writes. |
| Database.DbSaveIdempotent | database.py:289-303 | Saving the same grid twice leaves the same table as saving it once. |
| Database.DbSaveRowsWrites | database.py:289-301 | Every write is for this month and a named day, under the id a non-skipped row's CC finds. |
| Database.DbSaveFrame | database.py:289-303 | Other months and employees no grid row names keep their entries unchanged. |
| Database.DbSaveRowsLastRowWins | database.py:289-301 | A key holds the cell of the last non-skipped row for that id, in the last column naming that day. |
| Database.DbSaveCell | database.py:290-301 | For a known employee with a non-zero id, a NaN or "" cell is stored as NULL (kept, not deleted), and any other cell as its unstripped text. |
| Database.DbLoadedColumnsNameDays | database.py:251-264 | Every column of a loaded grid is the label of the day it names. |
| Database.DbLoadedSaves | database.py:237-304 | Saving a loaded grid unchanged never raises. |
| Database.DbRoundTripWritten | database.py:237-304 | Saving a loaded grid writes, for each employee and each column's day, the saved form of the loaded cell. |
| Database.DbRoundTripWritesOnly | database.py:237-304 | Saving a loaded grid writes only this month's keys of listed employees whose day has a column. |
| Database.DbRoundTripKey | database.py:237-304 | Per key, what loading and saving back leaves. |
| Database.DbLoadSaveRoundTrip | database.py:237-304 | Loading and saving back never raises. Only this month's keys of listed employees whose day has a column change: a stored code is kept except "" becomes NULL, and an unstored key gains a NULL row. |
| Database.DbShiftCodes | database.py:328-346 | The registry's keys are exactly the stored codes; a code's entry comes from its last row; there is no "" entry. |
| Database.ShiftRegistriesCompared | malla.py:359-365 | malla.py's registry is database.py's with the "Sin Asignar" entry underneath, so a stored "" code overrides it. |
| Database.CleanItems | database.py:364 | The cleaned items are no more than the parts, and each is non-empty and stripped. |
| Database.CleanItemsKeepsClean | database.py:364 | Parts that are already non-empty and stripped are kept as they are, in order. |
| Database.CleanItemsFromParts | database.py:364 | Cleaning introduces no separator character. |
| Database.DbConfiguration | database.py:351-369 | Fails exactly when some row raises. Otherwise the keys are exactly the stored keys, each holding its last row's decoded value. |
| Database.SeparatorNumberFails | database.py:357-359 | A "number" setting ending with one of U+001C..U+001F does not decode, as `int()` raises. |
| Database.DbNumberRoundTrip | database.py:358-359 | A "number" setting stored as its decimal text reads back as that number. |
| Database.DbListItemsClean | database.py:362-364 | A decoded "list" has only non-empty, stripped, comma-free items. |
| Database.DbListRoundTrip | database.py:362-364 | A list of clean items stored comma-joined (the empty list as "") reads back as the same list. |
| Database.DecodersCompared | database.py:357-366 | The two versions decode number and boolean rows alike, and any other row alike unless its type is "list" or its key is "departamentos". |
| Database.Authenticate | database.py:155-173 | Returns a user exactly when the username exists and the password's hash equals the stored hash; the record carries that username and the stored role, nombre and departamento. |
| Database.LoginAgreesWithAuthenticate | database.py:155-173 | malla.py's login succeeds exactly when authentication returns a user, and then signs in with that user's name, role and data. |

## Left out

- Streamlit pages, forms, session state and reruns are not modelled. The session's authentication record is a value passed in and returned.
- SQLite connections, SQL text and schema creation are not modelled. Each table is a Dafny map or sequence. The key of the assignment table is its `UNIQUE(empleado_id, mes, ano, dia)` constraint, so INSERT OR REPLACE is a map update.
- pandas mechanics are left out: the renaming of `hora_inicio`/`hora_fin` to `HORA_INICIO`/`HORA_FIN` in malla.py, and the dropping of the `id` column. A grid row keeps the start and end hours as the fields `horaInicio` and `horaFin`, with the other attributes as named fields and the day cells as a map.
- Both versions' grids also carry the `created_at` and `updated_at` columns of the employee table; the model's grid row does not.
- The SHA-256 hash is a function-typed parameter of `Access.Login` and `Database.Authenticate`.
- Logging, timestamps, the CSV download and the JSON backup import are I/O and clock-dependent, so they are not modelled.
- After a successful login, malla.py looks up the employee whose name matches in upper case. This lookup is not modelled: it only feeds the UI.
- The `LIKE` name lookup of `get_empleado_por_username` is not modelled.
- The employee list is taken as given, already ordered by `numero` as `get_empleados` returns it.
- Strings.ParseInt: Python's `int()` also accepts underscores between digits and non-ASCII digits. The model accepts ASCII digits with an optional sign, surrounded by the whitespace `int()` skips: what `str.isspace()` counts, except the separators U+001C..U+001F.
- Database.DbCode: a NaN cell is passed to SQLite as a float NaN, which SQLite stores as NULL. The model writes NULL directly.
- Statistics.SumHours: `str(turno)` is the identity on the text cells the grid holds. Non-text cell values are not modelled.
- Statistics.SumHours: the hours are integers; a registry holding float hours is not modelled.
- Roster.EmployeeMonth: the result holds only the stored days, as the code does. A day without a stored row is absent; it is not mapped to an empty code.
