# Wedding RSVP validator (single-guest form)

This project models the core of a small wedding RSVP web form. A guest types
their name and a number of attendees. The handler accepts the submission only
when all of the following hold:

- the number is an integer;
- the stripped name is on the master guest list (`lista_maestra.csv`, columns
  `Nombre`, `Asignados`);
- the number does not exceed the seats set aside for that guest;
- the name is not already in the confirmations file (`invitados.csv`, columns
  `Fecha`, `Nombre`, `Asistentes`, `Mensaje`).

An accepted submission appends exactly one row to the confirmations file.

Modules:

- `Wrappers` (`wrappers.dfy`): `Option`.
- `Text` (`text.dfy`): the Python builtins the handler relies on.
  - `TrimBy(ws, s)` cuts the characters of the set `ws` from both ends of `s`.
  - `Trim` is `str.strip()`: `TrimBy` over `Whitespace`, the full
    `str.isspace()` set.
  - `ParseInt` is `int()` on a string. It cuts the characters of `IntSpace`
    from both ends, takes an optional sign, and accepts ASCII digits with
    single underscores between them. It returns `None` where Python raises
    `ValueError`. `IntSpace` is `Whitespace` without U+001C..U+001F: CPython
    maps non-ASCII spaces to a space and then skips only ASCII whitespace.
  - `ShowInt` is `str()` of an integer, and is what the csv writer puts in the
    `Asistentes` cell.
- `Roster` (`roster.dfy`): loading the master list.
  - The list is a sequence of `MasterRow(nombre, asignados)` cells, or `None`
    for any read failure the loader catches (app.py:38-43): a missing file, or
    a file that is not valid UTF-8, whose `UnicodeDecodeError` is a
    `ValueError`.
  - `RosterOf` is the specification: a left fold in which a later row
    overwrites an earlier row with the same stripped name.
  - `LoadRoster` is the loop of `cargar_lista_maestra`, proved against it.
- `Rsvp` (`rsvp.dfy`): the confirmations store and the handler.
  - `Decide` gives the outcome of a submission from the roster, the confirmed
    rows, the raw name and the count. The checks run in the handler's order.
  - `ConfirmedFile` is a class holding whether the file exists and its data rows
    below the header.
  - `ConfirmedFile.InitDb` is `init_db`.
  - `ConfirmedFile.Rsvp` is the POST handler. It loads the roster itself, as the
    handler does on every request, and is proved against `Decide`.
  - `SaveToSheets` is the remote spreadsheet write. It has no effect, because
    the source catches and logs every failure inside it.

Inputs that come from outside the program are parameters:

- the master-list rows;
- the count, as `Option<int>`, where `None` is a failed `int()` of the form field
  or a missing field;
- the message;
- the timestamp.

In `app.py` the lookup is an exact, case-sensitive match of the stripped name
(`UnknownNameRejected`, illustrated by `NameMatchIsExact`), and the seat limit
is enforced.

## Model

| member | source | states |
|---|---|---|
| `Text.TrimStartIsSuffix` | app.py:35 | the left cut (lstrip() for `Whitespace`) leaves a suffix of the input, removes only characters of the set, and stops at the first character outside it |
| `Text.TrimEndIsPrefix` | app.py:35 | the right cut (rstrip() for `Whitespace`) leaves a prefix, removes only characters of the set, and stops at the last character outside it |
| `Text.TrimIsStrip` | app.py:35 | `TrimBy(ws, s)` is a slice of `s` with only characters of `ws` before and after it, and none at either end; for `Whitespace` this is strip() |
| `Text.StripAtUnique` | app.py:35 | two such slices of the same string are equal, wherever they start |
| `Text.StripIsUnique` | app.py:35 | there is only one strip of a string, so `TrimIsStrip` pins `TrimBy` and `Trim` down completely |
| `Text.TrimUnpadded` | app.py:90 | a string with no character of the set at its ends is returned unchanged |
| `Text.TrimIdempotent` | app.py:37 | trimming twice is the same as trimming once; strip() in particular |
| `Text.ShowNatDigits` | app.py:120 | the decimal rendering of a natural number is a non-empty run of digits whose value is that number |
| `Text.ShowIntUnpadded` | app.py:120 | the text written for a count starts and ends with a character that neither strip() nor int() skips |
| `Text.ShowIntParses` | app.py:117-120 | the text written for a count, already free of surrounding whitespace, parses back to that count |
| `Text.ParseShowRoundTrip` | app.py:117-120 | `int(str(n)) == n` for every integer: the `Asistentes` cell written is `str(count)`, which `int()` maps back to the count |
| `Text.ParseIgnoresStrip` | app.py:37 | whenever `int(s)` succeeds, `int(s.strip())` gives the same number |
| `Text.StripCanRescueParse` | app.py:37 | the converse fails: `int("\x1c5")` is rejected while `int("\x1c5".strip())` is 5, since strip() cuts U+001C and int() does not skip it |
| `Text.ParseNeedsADigit` | app.py:37-43 | a cell with no digit, such as an empty cell, never parses |
| `Roster.LoadRoster` | app.py:27-44 | the loop returns the fold over all rows, or the empty map when the file is missing or any `Asignados` cell does not parse |
| `Roster.FailedPrefixFails` | app.py:41-43 | once a row fails to parse, the loading as a whole fails, whatever rows follow, so no partial map survives |
| `Roster.RosterFailsIffBadRow` | app.py:37-43 | loading fails if and only if some row's `Asignados` cell is not an integer |
| `Roster.RosterKeys` | app.py:34-37 | the keys of a loaded roster are exactly the stripped `Nombre` cells |
| `Roster.RosterValueIsLastRow` | app.py:34-37 | a name maps to the parsed `Asignados` of the last row with that stripped name, so later rows overwrite earlier ones |
| `Roster.LoadedAllOrNothing` | app.py:38-44 | the result is the empty map for a missing file or for any bad cell; otherwise it has one key per distinct stripped name |
| `Rsvp.CellsReadBack` | app.py:117-120 | a written row has one cell per header column; its `Nombre` cell is the guest, and its `Asistentes` cell is `str(count)`, which `int()` maps back to the count |
| `Rsvp.CsvLines` | app.py:118-120 | the file body has one line per row, holding that row's cells |
| `Rsvp.Names` | app.py:112 | the `Nombre` column lists every row's name, in order |
| `Rsvp.IsConfirmed` | app.py:110-113 | the duplicate check holds if and only if some row carries exactly that name |
| `Rsvp.InvalidNumberFirst` | app.py:91-94 | a count that is not an integer gives the invalid-number error, whatever the roster and the file hold, so it comes before any lookup |
| `Rsvp.UnknownNameRejected` | app.py:100-102 | with an integer count, a stripped name that is not a roster key gives "not found" for that name |
| `Rsvp.SeatLimitEnforced` | app.py:104-106 | a known name asking for more seats than allotted gives the seat-limit error with the allotment, even when already confirmed |
| `Rsvp.DuplicateRejected` | app.py:108-113 | a known name within its allotment that already has a row gives "already confirmed" |
| `Rsvp.SuccessIff` | app.py:88-129 | success holds if and only if the count is an integer, the name is in the roster, the count is at most the allotment, and no row has the name; success names the stripped guest |
| `Rsvp.RepeatIsDuplicate` | app.py:108-120 | submitting the same form again after a success is rejected as a duplicate |
| `Rsvp.SuccessKeepsNamesUnique` | app.py:108-120 | appending the row of a success keeps every name in at most one row |
| `Rsvp.NameMatchIsExact` | app.py:90-102 | an illustration on one roster: "ana" is not found when the roster has "Ana", while " Ana\n" is accepted as "Ana" |
| `Rsvp.NoLowerBound` | app.py:104-106 | an illustration on one roster: only the upper bound is checked, so counts 0 and -3 are accepted |
| `Rsvp.ConfirmedFile.constructor` | app.py:14 | a confirmations file as found: present with its rows, or missing and empty |
| `Rsvp.ConfirmedFile.InitDb` | app.py:46-51 | a missing file becomes the header-only table `Fecha, Nombre, Asistentes, Mensaje`; an existing file is left unchanged, so a second call does nothing |
| `Rsvp.ConfirmedFile.Rsvp` | app.py:88-129 | the outcome is `Decide` on the loaded roster and the old rows; a success appends exactly `[fecha, stripped name, count, mensaje]` after the unchanged old rows; every error leaves the file unchanged; unique names stay unique |

## Left out

- Flask routing, the request object and `render_template` (app.py:1-11, 83-86, 131-133) are framework glue. The rendered messages are reduced to `ErrorKind` values carrying the name or the allotment they show.
- `SaveToSheets` models `guardar_en_sheets` (app.py:55-78) as a no-op. The credentials, the gspread client and the network call are left out, because every exception inside it is caught and only logged.
- Real file I/O and CSV encoding are left out. The master list arrives as already-split `(Nombre, Asignados)` cells, and the confirmations file is its rows in memory. The model assumes the csv module writes cells and reads them back unchanged. It does not model newline translation inside quoted fields, a byte-order mark, or an existing file with a different header.
- A crash from a missing column or a short row in the master list (a `KeyError`, or `None.strip()`) is not modelled. Neither is the crash from a form without a `nombre` field (app.py:90). Neither is caught in the source.
- `os.path.exists` becomes the `present` flag of `ConfirmedFile`. `print` logging is left out.
- `datetime.now().strftime` (app.py:97) becomes the opaque `fecha` parameter. The message (app.py:96) is opaque text; a missing message, which the csv writer writes as an empty cell, is not distinguished from an empty one.
- `ParseInt` accepts only ASCII digits, whereas Python's `int()` also accepts other Unicode decimal digits. It does not model the interpreter's limit on the number of digits in an integer string.
- Two requests running at once can race on the check-then-append sequence. The source has no locking, and the model treats each request as running alone.
- The `init_db()` call at start-up (app.py:132) is the same `InitDb` operation and is not modelled separately.
