# Archive records: ID allocation and status logic

A Dafny model of the record-keeping core of `app.py`, a Streamlit app for
an archive of document boxes kept in a SharePoint Excel workbook. Each box
gets an ID `PPPPNNL`:

- `PPPP` is a prefix: the department abbreviation followed by the
  document-type abbreviation. Each is two characters, except that a lookup
  table may map a name to an abbreviation of any length;
- `NNL` is a suffix 00A..99Z that encodes an index 0..2599.

The model covers:

- `text.dfy` (`Text`): the Python string built-ins the code relies on
  (`strip`, `upper`, `lower`, `split`, `in`), on Unicode code points.
- `codec.dfy` (`Codec`): the suffix codec `idx_to_sufixo` / `sufixo_to_idx`
  and the ID parser `extrair_prefixo_e_idx`.
- `prefix.dfy` (`Prefix`): `abrev_depto`, `abrev_tipo` and `montar_prefixo`.
  The two name-to-abbreviation tables are parameters.
- `allocator.dfy` (`Allocator`): `carregar_ultimo_idx_por_prefixo` (the
  memoised table scan), `proximo_idx_para_prefixo`, and
  `garantir_id_definitivo_prefixado`.
  - The allocator is a class whose fields are the table's `ID` column, as
    text, and the memoised map (`Option<map<string,int>>`).
  - The table and the map are each specified by a function. The loops are
    methods proved against those functions.
- `idlist.dfy` (`IdList`): `parse_ids` of the move tab, as a loop proved
  against a specification function.
- `records.dfy` (`Records`): the DataFrame and the cell updates of the
  Status tab (desarquivar / rearquivar one record) and of the move tab.
  - The DataFrame is a map from column to the column's cells.
  - `df.at` creates a missing column, with NaN in the other rows.
  - The in-place updates are methods of a `RecordTable` class.
- `storage.dfy` (`Storage`): `_sanitize_sheet_name` and the lock test of
  the upload retry loop.

The allocator picks one past the largest index in use, so every ID it hands
out is fresh with respect to the table it scanned. It does not guarantee
uniqueness across calls. Each call rescans the same table, so two calls with
nothing saved in between return the same ID
(`Allocator.ReserveTwiceOnSameTable`).

## Model

| member | source | states |
|---|---|---|
| Text.StripLeftShape | app.py:314 | `lstrip` keeps a suffix that starts with non-whitespace, and everything it drops is whitespace |
| Text.StripRightShape | app.py:314 | `rstrip` keeps a prefix that ends with non-whitespace, and everything it drops is whitespace |
| Text.StripShape | app.py:314 | `strip` leaves no whitespace at either end; it is empty exactly when the input is all whitespace |
| Text.Strip | app.py:314 | `str.strip()`; its shape is stated by StripLeftShape, StripRightShape and StripShape |
| Text.Upper | app.py:314 | `str.upper()`; never shortens the text; idempotence is UpperIdempotent |
| Text.Lower | app.py:147 | `str.lower()`; never shortens the text; LowerAppend and LockWordDetected use it |
| Text.UpperIdempotent | app.py:314 | upper-casing twice is upper-casing once |
| Text.Split | app.py:612 | `split(",")` gives at least one part, and no part contains the separator |
| Text.SplitJoin | app.py:612 | joining the parts of `split` with the separator gives back the input |
| Text.ContainsAt | app.py:146-147 | `sub in s` holds exactly when `sub` occurs at some position of `s` |
| Codec.SuffixToIdx | app.py:300-306 | succeeds exactly on two digits followed by A-Z, with a result in 0..2599; otherwise it is the invalid-suffix error |
| Codec.IdxToSuffix | app.py:288-298 | succeeds exactly on 0..2599, otherwise the capacity error; the output is `NNL` and decodes back to the index |
| Codec.SuffixToIdxInverse | app.py:288-306 | every well-formed suffix is the encoding of the index it decodes to |
| Codec.IdxToSuffixInjective | app.py:288-298 | distinct indices get distinct suffixes |
| Codec.IdxToSuffixMonotonic | app.py:288-298 | a larger index has a larger suffix in Python string order |
| Codec.Normalize | app.py:314 | `strip().upper()`; NormalizeIdChars gives its fixed points |
| Codec.ParseId | app.py:308-324 | succeeds exactly when the stripped, upper-cased input is four `[A-Z0-9]` characters followed by `NNL`; the result's prefix and suffix spell that text |
| Codec.ParseCanonical | app.py:315-324 | the same match on text already stripped and upper-cased |
| Codec.NormalizeIdChars | app.py:314 | a string of `[A-Z0-9]` characters is unchanged by strip and upper |
| Codec.ParseBuiltId | app.py:308-324 | parsing prefix + `idx_to_sufixo(idx)` for a valid prefix gives back the prefix and the index |
| Codec.ParseRejectsOtherPrefixLengths | app.py:315 | an ID whose prefix is not four characters long is never recognised |
| Codec.ParseIdExample | app.py:308-324 | `" gqes03c "` parses as prefix `GQES`, index 80 |
| Prefix.KeepIdChars | app.py:269 | the `re.sub` result holds only `[A-Z0-9]` characters, each taken from the input, and keeps every `[A-Z0-9]` character of the input; with KeepIdCharsAppend this fixes the result on every string |
| Prefix.KeepIdCharsAppend | app.py:269 | filtering distributes over concatenation |
| Prefix.LJust | app.py:270 | `ljust` keeps the text and pads it with the fill character up to the width |
| Prefix.Abbrev | app.py:262-280 | gives `XX` for a blank name and the upper-cased table entry for a mapped name; otherwise the first two `[A-Z0-9]` characters of the normalised name, padded with `X` |
| Prefix.AbbrevIsCode | app.py:262-280 | the abbreviation is two `[A-Z0-9]` characters unless the table maps the name to something else |
| Prefix.BuildPrefix | app.py:282-283 | `montar_prefixo`; BuildPrefixValid states what it builds |
| Prefix.BuildPrefixValid | app.py:282-283 | the prefix is the department half followed by the type half, and it is four `[A-Z0-9]` characters |
| Prefix.CodesMakePrefix | app.py:282-283 | two codes concatenate to a valid prefix that splits back into them |
| Prefix.JuridicoFallsBack | app.py:262-270 | an unmapped accented name falls back to its first `[A-Z0-9]` characters (`Jurídico` gives `JU`) |
| Prefix.FallsBackToFirstTwo | app.py:269-270 | an unmapped name with two or more `[A-Z0-9]` characters after normalising is abbreviated to the first two |
| Prefix.LigatureFallsBack | app.py:266-270 | the ligature 'ﬁ' upper-cases to "FI", so `ﬁnanceiro` is abbreviated `FI` |
| Prefix.MappedTypeExample | app.py:272-280 | a mapped type name uses its table entry, upper-cased |
| Allocator.ParseAll | app.py:341-342 | one parse result per table ID |
| Allocator.ParseAllAt | app.py:341-342 | the j-th result is the parse of the j-th ID |
| Allocator.Absorb | app.py:344-347 | one step of the scan; LastIndexMapSnoc and FoldIsMax state that the map keeps the largest index per prefix |
| Allocator.Fold | app.py:343-347 | the map holds only valid prefixes, with indices in 0..2599 |
| Allocator.FoldIsMax | app.py:343-347 | a prefix is in the folded map exactly when it occurs; its entry occurs and is the largest index for that prefix |
| Allocator.LastIndexMap | app.py:338-350 | the scan's map has valid prefixes and in-range indices |
| Allocator.LastIndexMapIsMax | app.py:340-347 | the map holds exactly the prefixes of parseable IDs, each with the largest index among its IDs; malformed IDs play no part |
| Allocator.LastIndexMapSnoc | app.py:341-347 | scanning one more ID absorbs its parse into the map |
| Allocator.ScanLastIndex | app.py:340-347 | the loop builds exactly the specified last-index map |
| Allocator.MemSuffix | app.py:364-366 | the group captured by `^prefix(\d{2}[A-Z])$` is `NNL`, and the ID is the prefix plus the group (an optional final newline is allowed) |
| Allocator.MemIndex | app.py:393-398 | the index a df_mem ID contributes lies in 0..2599 |
| Allocator.MemIndexMeaning | app.py:393-398 | df_mem contributes index i exactly for the ID prefix + `idx_to_sufixo(i)`, with or without a final newline |
| Allocator.MemMax | app.py:393-400 | the running maximum never falls below its start value |
| Allocator.MemMaxIsMax | app.py:393-400 | the running maximum bounds every df_mem index of the prefix and is the start value or one of them |
| Allocator.ScanMem | app.py:362-373 | the df_mem loop computes exactly that running maximum |
| Allocator.NextIndexFrom | app.py:360-378 | `proximo_idx_para_prefixo` on a given map: a result lies above the map's entry and below 2600; otherwise it is the capacity error for the prefix |
| Allocator.ReservedIndexIsMaxPlusOne | app.py:387-403 | the next index exceeds every used index of the prefix in the table and df_mem; the index below it is in use (or it is 0); it fails exactly at 2600 |
| Allocator.ReservedIdIsFresh | app.py:383-409 | the reserved ID equals no df_mem ID, and, for a prefix of four `[A-Z0-9]` characters, no table ID parses to it |
| Allocator.ClaimMatchesRescan | app.py:405-406 | the claim written back into the map equals a rescan of the table with the new ID appended |
| Allocator.SequenceAllocator.LoadLastIndex | app.py:333-350 | returns the memoised map if present, otherwise scans and memoises |
| Allocator.SequenceAllocator.NextIndex | app.py:353-378 | one past the memoised maximum and df_mem's indices; a capacity error at 2600; the map is memoised |
| Allocator.SequenceAllocator.ReserveId | app.py:383-409 | drops and rebuilds the map, claims max+1 for the prefix, writes the claim into the map and returns prefix + suffix; on exhaustion it returns an error with the rebuilt map cached |
| Allocator.ReserveTwiceOnSameTable | app.py:383-409 | two reservations on an unchanged table return the same result |
| Allocator.ReserveThenPreview | app.py:518-531 | after a reservation, the preview shows the index right after the reserved one, or fails when 99Z was reserved |
| IdList.NormalizeAll | app.py:613 | each part is stripped and upper-cased |
| IdList.Dedup | app.py:611-616 | the loop's kept list as a function; never longer than its input; its meaning is given by the three lemmas below |
| IdList.DedupMembers | app.py:611-616 | the kept IDs are exactly the non-empty normalised parts |
| IdList.DedupNoDuplicates | app.py:611-616 | no ID is kept twice |
| IdList.DedupIsFirstOccurrences | app.py:611-616 | the kept IDs are the first occurrences, in input order |
| IdList.ParseIds | app.py:607-617 | returns the de-duplicated, non-empty, stripped and upper-cased parts, with no duplicates, in first-occurrence order |
| Records.Repeat | app.py:760-761 | a new column holds the same value in every row |
| Records.SetAt | app.py:755 | `df.at` puts v in row i of the column; the column's other rows keep their cells, or hold NaN when `df.at` creates it; no other column changes and no other column is added |
| Records.Fill | app.py:760-761 | `df[c] = v` puts v in every row and changes no other column |
| Records.FindRow | app.py:675 | the first row whose ID cell is exactly the ID; no earlier row matches |
| Records.LocateForStatus | app.py:673-675 | an empty input does nothing; otherwise the ID is stripped and upper-cased before the lookup |
| Records.Locate | app.py:741-752 | success means the row holds the ID, the responsible person is not blank, and, when retrieving, the status is not DESARQUIVADO |
| Records.StatusRejections | app.py:741-752 | each rejection (unknown ID, blank responsible person, already retrieved) happens exactly in its case |
| Records.ClearIfPresent | app.py:773-778 | clears row i of an existing column, creates none and changes no other column |
| Records.Retrieve | app.py:754-763 | the desarquivar writes as a function on the table; stated by RetrieveKeeps, RetrieveWrites and RetrieveOutside |
| Records.Rearchive | app.py:766-778 | the rearquivar writes as a function on the table; stated by RearchiveKeeps, RearchiveWrites, RearchiveClears and RearchiveOutside |
| Records.RetrieveKeeps | app.py:754-763 | desarquivar adds at most its four columns and leaves every other column unchanged |
| Records.RetrieveWrites | app.py:754-763 | desarquivar writes Status DESARQUIVADO, the responsible person, the date and the note into row i only; new columns hold NaN, or an empty note, elsewhere |
| Records.RearchiveKeeps | app.py:766-778 | rearquivar adds at most Status and the archival columns, creates no retrieval column, and leaves every other column unchanged |
| Records.RearchiveWrites | app.py:768-770 | rearquivar writes ARQUIVADO, the archival responsible person and the date into row i only |
| Records.RearchiveClears | app.py:772-778 | rearquivar empties row i of each retrieval column present, and nothing else of it |
| Records.SetAtOutside | app.py:755 | `df.at` changes no cell outside row i |
| Records.ClearOutside | app.py:773-778 | clearing changes no cell outside row i |
| Records.RetrieveOutside | app.py:754-763 | desarquivar changes no cell outside the record's row |
| Records.RearchiveOutside | app.py:766-778 | rearquivar changes no cell outside the record's row |
| Records.RetrievedIsNormal | app.py:746-750 | the stored status DESARQUIVADO reads back as DESARQUIVADO after strip and upper |
| Records.RetrieveTwiceRejected | app.py:745-752 | after a successful desarquivar, the same request is rejected as already retrieved |
| Records.RetrieveThenRearchiveRow | app.py:754-778 | desarquivar then rearquivar leaves the record ARQUIVADO, with the new archival data and empty retrieval cells |
| Records.RetrieveThenRearchiveFrame | app.py:754-778 | the round trip changes no other record's cell and no cell outside the status columns |
| Records.UpperIds | app.py:623 | the `ID_UP` column holds the upper-cased text of each row's ID |
| Records.MatchingRows | app.py:649 | the selected row indices are increasing, each one's upper-cased ID is a key, and every such row is included |
| Records.MatchingRowsSameSelection | app.py:649 | two key lists that pick the same rows give the same indices |
| Records.Selected | app.py:624-625 | the found list holds exactly the keys present in the column, one entry per selected row, in row order |
| Records.FoundIds | app.py:623-625 | the found list holds exactly the requested IDs that some row has, after upper-casing; it has one entry per matching row, and that row's upper-cased ID |
| Records.MissingIds | app.py:626 | the missing list holds exactly the requested IDs that are not found |
| Records.MissingMeansAbsent | app.py:621-632 | an ID is reported missing exactly when no row's upper-cased ID equals it |
| Records.SetWhere | app.py:649-652 | `df.loc[idxs, c] = v` sets exactly the selected rows of c and changes no other column |
| Records.FoundSelectsRequested | app.py:649 | re-selecting rows by the found IDs selects exactly the rows whose ID was requested |
| Records.MoveTable | app.py:646-652 | the confirmed move as a function on the table; stated by MoveKeeps and MoveWrites |
| Records.MoveKeeps | app.py:648-652 | the move adds at most the three location columns and leaves every other column unchanged; when nothing is found, nothing changes |
| Records.MoveWrites | app.py:648-652 | the requested rows get the new Local, Estante and Prateleira whatever their status; the other rows keep theirs |
| Records.RecordTable.At | app.py:755 | the in-place `df.at` leaves the table equal to SetAt of the old table |
| Records.RecordTable.FillColumn | app.py:760-761 | the in-place column fill leaves the table equal to Fill of the old table |
| Records.RecordTable.Desarquivar | app.py:741-763 | runs the checks; on failure the table is untouched, on success it is Retrieve of the old table with the stripped note |
| Records.RecordTable.Rearquivar | app.py:741-778 | runs the checks without a status guard; on failure the table is untouched, on success it is Rearchive of the old table |
| Records.RecordTable.Move | app.py:648-657 | the table becomes MoveTable of the old table; the count is `len(idxs)`, the number of rows re-selected by the found IDs, which equals the length of the found list |
| Storage.Replace | app.py:78-81 | `replace(c, " ")` changes exactly the occurrences of c |
| Storage.SanitizeSheetName | app.py:75-82 | keeps at most 31 characters, each one the input's character with forbidden ones turned into spaces |
| Storage.SanitizeAllowed | app.py:75-82 | no forbidden character survives |
| Storage.SanitizeIdempotent | app.py:75-82 | sanitising a sanitised name changes nothing |
| Storage.IsLocked | app.py:144-148 | the lock test: status 423, the SharePoint lock code, or "lock" in the lower-cased message; stated by LockWordDetected |
| Storage.LockWordDetected | app.py:144-148 | a message containing any casing of "lock" counts as a lock |
| Storage.UpperCaseLockDetected | app.py:144-148 | messages containing "LOCK" or "Lock" count as locks |

## Left out

- SharePoint download and upload, Excel reading and writing, and `st.cache_data`. These are network and foreign-library I/O. Only the sheet-name sanitiser and the lock test are modelled.
- The upload retry loop with `time.sleep(5)`. It is I/O with an unbounded retry. Only its lock predicate `Storage.IsLocked` is modelled.
- Streamlit widgets, forms, tabs, the query and report views, and the displayed messages. The model returns the error instead of showing a message.
- The disposal-date computation. It needs the wall clock and a date library.
- The legacy Desarquivar tab. The sidebar's option list cannot reach it.
- Dates are pre-formatted strings. `strftime` is not modelled.
- The session state (`st.session_state`) is the allocator's `cache` field. The load of the lookup maps from the selects sheet is left out; the maps are parameters.
- `df_Arquivos` is never stored in the session, so the scan reads `df`. The model takes the table's `ID` column as a sequence of strings and does not model `astype(str)` of non-text cells.
- Records.StatusReady: the model requires an `ID` and a `Status` column for every Status-tab call. This follows the source: it reads `df["Status"]` on every render of the tab, whatever the input (app.py:809).
- Records.Locate: for a found record, the source stops with an uncaught `KeyError` when the table lacks any of the nine other displayed columns (app.py:681-685, outside the `try`). The model does not check those columns, so Desarquivar and Rearquivar go ahead in that case.
- Records.Table: cells are text or NaN. Other pandas types, column order, and a non-default row index are not modelled. Rows are addressed by position.
- Records.Column: a column called `Other(name)` is assumed never to carry one of the ten named labels.
- Codec.IsDigit: `\d` in Python also matches non-ASCII decimal digits, and `int()` accepts them. The model accepts ASCII digits only.
- Text.UpperChar covers ASCII, Latin-1 and every other character whose upper-case form contains an ASCII letter: 'ı', 'ſ', the ligatures U+FB00..U+FB06, 'ŉ', 'ǰ' and U+1E96..U+1E9A. Other letters, such as Greek or Cyrillic ones, are left unchanged, although Python maps them to other non-ASCII letters. Those letters never become `[A-Z0-9]` either way, so ID parsing and the fallback abbreviation do not depend on them. The lookup key of a name that contains them does differ from Python's. So do two ID comparisons: the Status tab compares the typed, upper-cased ID with the raw cell (app.py:674-675), and the move tab compares upper-cased table IDs with the parsed list (app.py:613, 623, 649). A typed 'α…' therefore finds a cell 'Α…' in Python but not in the model.
- Text.LowerChar covers the characters whose lower-case form contains an ASCII letter: ASCII and Latin-1 capitals, the Kelvin sign and 'İ'. Other lower-case mappings are not modelled.
- Prefix.Abbrev: `pd.isna(nome)` is not modelled, because names are strings.
- Allocator.SequenceAllocator.ReserveId: the table scan never recognises the IDs of a prefix that is not four `[A-Z0-9]` characters. This happens with a table entry of another length, or one such as "Ç1" or "R&". Only df_mem then keeps such an ID fresh. Allocator.ReservedIdIsFresh therefore promises freshness against the table only for a valid prefix (see Codec.ParseRejectsOtherPrefixLengths).
- Other descriptions of this system derive the prefix from the document type and two random letters; the code, and the model, use the department abbreviation followed by the type abbreviation.
- Other descriptions also reject moving a record whose status is DESARQUIVADO; the code has no such guard and moves every requested record, and so does the model.
- There is no audit log and no bounded retry in this code, so neither is modelled.
