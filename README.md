# ClearedDCT flight-plan store, ICAO message formatter and outbox

ClearedDCT is a single Streamlit page for drafting flight plans and composing
ICAO ATS messages in the style of ICAO PANS-ATM (Doc 4444), Appendix 3. Almost
all of the page is widget glue. This project models its deterministic logic
and proves properties about it:

- **The flight-plan store** (`flight_plans.dfy`, module `FlightPlans`). The store
  is a dictionary from aircraft identification (item 7) to a record, and a
  record is a dictionary from field code (`"7"`, `"8_type"`, `"16_dest"`, …) to
  text. There are three operations: creation (refused when item 7 is empty),
  edit-save (drop the old key if item 7 changed, then insert, last writer wins)
  and deletion. The pure functions `AfterCreate`, `AfterEdit` and `AfterDelete`
  state the resulting dictionary. The class `FlightPlanStore` holds the
  dictionary and updates it in place, as the page does.
- **Python's `str.replace("--", "-")` and `str.strip("-")`** (`py_strings.dfy`,
  module `PyStrings`). Both are modelled recursively. `CollapseRuns` is an
  independent run-by-run description: every maximal run of n dashes becomes
  ceil(n/2) dashes. `ReplaceIsCollapseRuns` proves that the single replace pass
  equals it.
- **The message formatter** (`messages.dfy`, module `Messages`). An FPL message
  is the fixed 21-field template. Every other type is
  `type-id-dep-dest-additional`, passed through replace and then strip. A field
  the record lacks is Python's `KeyError`, modelled as
  `Failure(MissingField(code))`. The code reported is the first missing one in
  the order the f-string reads the fields.
- **The outbox** (`outbox.dfy`, module `OutboxStore`). Generation appends,
  "Clear Outbox" empties the list, and "Export Outbox" builds the export text in
  a loop. `ExportRoundTrip` proves that, when no header field and no message
  holds a newline, splitting the export text at newlines gives back the header
  lines and every message, in order. An FPL message carries item 18 (the
  multi-line remarks box) as entered, so a remark with a line break spreads
  that message over several export lines (`FplKeepsRemarkNewline`).

`wrappers.dfy` holds the `Option` and `Result` datatypes.

Behaviour of the page worth noting:

- The export text ends every message with a newline, the last one included:
  `"Alice\nBob\nL5\n\nm1\nm2\n"`.
- With both alternates and item 18 empty, the FPL template produces
  `KSQL0020   -  - E/0200`: three spaces, a dash, two spaces
  (`FplEmptyFieldsSpacing`).
- The select box offers only the ten types of `MessageType`; FPL uses its
  template and every other type takes the generic path, so no message type is
  refused.
- Deletion takes its key from the store's own keys (`del` would raise
  otherwise), so `Delete` requires the key to be present.
- The "Additional Info" text is used only for the eight types whose input the
  page shows. For CNL and FPL it is the empty string.

## Model

| member | source | states |
|---|---|---|
| FlightPlans.AfterCreate | ClearedDCT/pages/1_ClearedDCT_App.py:87-94 | fails with MissingIdentification exactly when item 7 is empty; otherwise the keys become the old keys plus item 7, item 7 maps to the form's record, and every other entry is unchanged |
| FlightPlans.EditedRecord | ClearedDCT/pages/1_ClearedDCT_App.py:137-138 | the edited record has exactly the field codes of the record being edited; each field holds the user's input where one was entered and the stored value otherwise |
| FlightPlans.AfterEdit | ClearedDCT/pages/1_ClearedDCT_App.py:140-144 | fails only when the updated record has no item 7 (KeyError); otherwise the keys are the old keys minus the edited key plus the new item 7, the new item 7 maps to the updated record (overwriting any record already there), and all other entries are unchanged |
| FlightPlans.AfterDelete | ClearedDCT/pages/1_ClearedDCT_App.py:99-105 | for a key taken from the store: the key is gone, every remaining entry is unchanged, and the store is one entry smaller |
| FlightPlans.CreateThenDelete | ClearedDCT/pages/1_ClearedDCT_App.py:87-105 | deleting a freshly created identification gives back the store it was created in |
| FlightPlans.CreateLastWriterWins | ClearedDCT/pages/1_ClearedDCT_App.py:87-90 | two creations under the same item 7 leave only the later record |
| FlightPlans.EditCollisionOverwrites | ClearedDCT/pages/1_ClearedDCT_App.py:140-144 | renaming onto another stored identification succeeds without error: the old key is gone, the other record is overwritten, and the store loses one entry |
| FlightPlans.EditWithoutCollisionKeepsSize | ClearedDCT/pages/1_ClearedDCT_App.py:140-144 | an edit that keeps item 7, or renames to an unused identification, keeps the number of stored flight plans |
| FlightPlans.EditAcceptsEmptyIdent | ClearedDCT/pages/1_ClearedDCT_App.py:140-144 | edit-save makes no non-empty check: an empty item 7 is stored under the key "" |
| FlightPlans.EditKeepsFields | ClearedDCT/pages/1_ClearedDCT_App.py:137-138 | editing a record that has all 21 form fields yields a record that still has all of them |
| FlightPlans.CreateKeepsKeyedByIdent | ClearedDCT/pages/1_ClearedDCT_App.py:87-90 | creation preserves the invariant that every record is stored under its own item 7 |
| FlightPlans.EditKeepsKeyedByIdent | ClearedDCT/pages/1_ClearedDCT_App.py:137-144 | edit-save preserves that invariant, even when it overwrites another record |
| FlightPlans.DeleteKeepsKeyedByIdent | ClearedDCT/pages/1_ClearedDCT_App.py:103-105 | deletion preserves that invariant |
| FlightPlans.FlightPlanStore.constructor | ClearedDCT/pages/1_ClearedDCT_App.py:37-41 | with no backing file the store starts empty |
| FlightPlans.FlightPlanStore.Create | ClearedDCT/pages/1_ClearedDCT_App.py:87-94 | updates the dictionary in place to AfterCreate's store, or reports MissingIdentification and leaves it unchanged |
| FlightPlans.FlightPlanStore.SaveEdit | ClearedDCT/pages/1_ClearedDCT_App.py:137-148 | builds the edited record field by field, then updates the dictionary to AfterEdit's store, or reports the KeyError and leaves it unchanged |
| FlightPlans.FlightPlanStore.Delete | ClearedDCT/pages/1_ClearedDCT_App.py:103-107 | updates the dictionary in place to AfterDelete's store |
| PyStrings.ReplaceDoubleDash | ClearedDCT/pages/1_ClearedDCT_App.py:166 | Python's single left-to-right, non-overlapping replace of "--" by "-"; it never lengthens the text |
| PyStrings.ReplaceRun | ClearedDCT/pages/1_ClearedDCT_App.py:166 | a run of n dashes followed by a non-dash, or by nothing, becomes ceil(n/2) dashes |
| PyStrings.ReplaceIsCollapseRuns | ClearedDCT/pages/1_ClearedDCT_App.py:166 | the replace pass equals CollapseRuns: each maximal run of n dashes becomes ceil(n/2) dashes and every other character is kept |
| PyStrings.LongRunSurvives | ClearedDCT/pages/1_ClearedDCT_App.py:166 | the collapse is incomplete: a run of three or more dashes still leaves at least two |
| PyStrings.ReplaceIdentity | ClearedDCT/pages/1_ClearedDCT_App.py:166 | the replace pass leaves a text unchanged if and only if it has no two adjacent dashes |
| PyStrings.ReplaceConcat | ClearedDCT/pages/1_ClearedDCT_App.py:166 | after a non-dash, the replace pass works on each side of a boundary independently |
| PyStrings.StripLeading | ClearedDCT/pages/1_ClearedDCT_App.py:166 | the result is a suffix of the input, everything removed is a dash, and it does not start with a dash |
| PyStrings.StripTrailing | ClearedDCT/pages/1_ClearedDCT_App.py:166 | the result is a prefix of the input, everything removed is a dash, and it does not end with a dash |
| PyStrings.StripDashes | ClearedDCT/pages/1_ClearedDCT_App.py:166 | Python's strip("-"): the result is a contiguous slice of the input with only dashes before and after it, neither starts nor ends with a dash, and is empty exactly when the input is all dashes |
| PyStrings.StripDashesIdempotent | ClearedDCT/pages/1_ClearedDCT_App.py:166 | stripping twice is the same as stripping once |
| Messages.MessageType.Name | ClearedDCT/pages/1_ClearedDCT_App.py:157 | every message type name is three characters with no dash |
| Messages.FirstMissing | ClearedDCT/pages/1_ClearedDCT_App.py:164 | finds the first field code the record lacks: all earlier codes are present and this one is absent |
| Messages.Fpl | ClearedDCT/pages/1_ClearedDCT_App.py:164 | succeeds exactly when the record has all 21 template fields; otherwise it fails with the first missing field in template order |
| Messages.Normalise | ClearedDCT/pages/1_ClearedDCT_App.py:166 | the normalised text is never longer than the raw text and neither starts nor ends with a dash |
| Messages.Short | ClearedDCT/pages/1_ClearedDCT_App.py:166 | succeeds exactly when item 7, item 13 and the destination are present; on failure reports the first of item 7, item 13, destination (the order line 166 reads them) that the record lacks; the message is never longer than the raw text and never starts or ends with a dash |
| Messages.Format | ClearedDCT/pages/1_ClearedDCT_App.py:157-166 | FPL gives the FPL message and succeeds exactly when all 21 fields are present; every other type gives the short message, with the addition only for the types whose input the page shows, and succeeds exactly when item 7, item 13 and the destination are present |
| Messages.CompleteRecordFormats | ClearedDCT/pages/1_ClearedDCT_App.py:64-85 | a record with all fields the creation form fills in formats without error for every message type |
| Messages.FplFrame | ClearedDCT/pages/1_ClearedDCT_App.py:164 | the FPL message starts with "(FPL-", item 7 and "-", and ends with " - PIC/", the pilot in command and ")" |
| Messages.FplKeepsRemarkNewline | ClearedDCT/pages/1_ClearedDCT_App.py:164 | a line break typed into the remarks (item 18, a text area) is a line break inside the FPL message |
| Messages.AdditionalIgnored | ClearedDCT/pages/1_ClearedDCT_App.py:158-160 | for FPL and CNL the typed addition has no effect on the message |
| Messages.ShortCollapsesRuns | ClearedDCT/pages/1_ClearedDCT_App.py:166 | a short message is the strip of the raw text with every maximal run of n dashes reduced to ceil(n/2) |
| Messages.ShortStartsWithType | ClearedDCT/pages/1_ClearedDCT_App.py:166 | a short message always starts with its type's name |
| Messages.ReplaceWellFormed | ClearedDCT/pages/1_ClearedDCT_App.py:166 | the separators between non-empty dash-free fields survive the replace pass |
| Messages.NormaliseWellFormed | ClearedDCT/pages/1_ClearedDCT_App.py:166 | with non-empty dash-free fields, normalisation removes only the dangling separator an empty addition leaves |
| Messages.ShortWellFormed | ClearedDCT/pages/1_ClearedDCT_App.py:166 | with non-empty dash-free fields, a short message reads type-id-dep-dest, followed by -additional when the addition is non-empty |
| Messages.DepartureSample | ClearedDCT/pages/1_ClearedDCT_App.py:166 | DEP for N123AB from KPAO to KSQL without an addition is "DEP-N123AB-KPAO-KSQL" |
| Messages.EmptyAerodromesText | ClearedDCT/pages/1_ClearedDCT_App.py:166 | with both aerodromes empty and a non-empty dash-free identification and addition, normalisation yields type-id--additional: the three separators become two, not one |
| Messages.DoubledSeparatorSurvives | ClearedDCT/pages/1_ClearedDCT_App.py:157-166 | for every type that asks for an addition, a record with both aerodromes empty gives a message with a doubled separator in their place |
| Messages.FplEmptyFieldsSpacing | ClearedDCT/pages/1_ClearedDCT_App.py:164 | with both alternates and item 18 empty, the FPL items read "...dest eet" + "   -  - " + "E/...": three spaces, a dash, two spaces |
| OutboxStore.SplitLinesOfMessages | ClearedDCT/pages/1_ClearedDCT_App.py:186-187 | the newline-terminated message lines split back into the messages, in order |
| OutboxStore.ExportRoundTrip | ClearedDCT/pages/1_ClearedDCT_App.py:185-187 | when no header field or message holds a newline, the export text splits into sender, originator, lesson, a blank line, the messages in outbox order and an empty tail |
| OutboxStore.ExportSample | ClearedDCT/pages/1_ClearedDCT_App.py:185-187 | the export of ["m1", "m2"] with header Alice, Bob, L5 is "Alice\nBob\nL5\n\nm1\nm2\n" |
| OutboxStore.Outbox.constructor | ClearedDCT/pages/1_ClearedDCT_App.py:17-20 | with no backing file the outbox starts empty |
| OutboxStore.Outbox.Append | ClearedDCT/pages/1_ClearedDCT_App.py:167 | the outbox becomes the old outbox plus the message, and the old messages stay as a prefix |
| OutboxStore.Outbox.Generate | ClearedDCT/pages/1_ClearedDCT_App.py:162-168 | returns Format's result; on success the message is appended, on a KeyError the outbox is unchanged |
| OutboxStore.Outbox.Clear | ClearedDCT/pages/1_ClearedDCT_App.py:175-177 | the outbox becomes empty |
| OutboxStore.Outbox.Export | ClearedDCT/pages/1_ClearedDCT_App.py:182-187 | builds the export text in a loop, one message and newline at a time, and returns exactly ExportText of the outbox without changing it |

## Left out

- JSON load and save of `flight_plans.json` and `outbox.json`, and the file-existence checks: file I/O. The stores are in-memory values, and each operation's effect is what would be written.
- The export file `outbox_export.txt` and the email sending over SMTP: file and network I/O. `Export` returns the text that would be written.
- The Lottie animation fetch over HTTP: a network call with decorative output only.
- Streamlit widgets, tabs, CSS, `st.rerun` and `st.session_state`: UI framework behaviour. Widget values are parameters. The session's edit key is the `editKey` parameter of `SaveEdit`, and the selected flight plan is the record passed to `Generate`.
- OutboxStore.Outbox.Clear: clears the list it holds. On the page, clearing rewrites the file but not the in-memory list shown in the same run. That display artefact of the rerun model is not captured.
- OutboxStore.ExportRoundTrip: promises one export line per message only when no message holds a newline; an FPL message whose remarks hold a line break spans several lines, and the page does nothing about it.
- OutboxStore.Outbox.Export: reads the outbox it holds. The page reads the outbox file again, which holds the same messages except in the rerun artefact above.
- The order of the stored flight plans: a Python dictionary keeps insertion order, and the select boxes list the plans in that order (a renamed plan moves to the end). A Dafny map has no order, so the model keeps only the key-to-record mapping; this affects the display only.
- The length hints in widget labels ("max 6", "max 4") are not enforced by the code, so the model does not enforce them either.
