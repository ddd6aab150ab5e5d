# Component scanner: a verified model of its sequential core

The scanner is a Streamlit page. An operator logs in with a NIK (personnel
number) and a password. They photograph or upload a component label; the page
recognises its text and takes the first run of seven digits as the component
code. The operator enters a quantity and saves the record to a per-user Excel
file, or to a per-user CSV file when the Excel write fails. A separate
script, `fix_csv.py`, repairs an old CSV export: it drops every data line
with fewer than five fields and brings each remaining line to a fixed
seven-column layout.

This project models that core in Dafny and proves what the code promises:

- `TextOps` gives the Python string operations the code relies on: `" ".join`,
  `split(",")`, `strip()` and `replace("\r\n", " ")`. Their edge cases are
  written out, for example `"".split(",") == [""]` and `" ".join([""]) == ""`.
- `CodeScan` covers recognition and extraction. The recognised text is the
  local reader's fragments joined by spaces, or else the remote OCR.space
  text. The extractor takes the leftmost position where seven digits follow
  each other (`re.findall(r'\d{7}', text)[0]`).
- `ScanSession` covers the session. `Session` is a class over the fields of
  `st.session_state`: `loggedIn`, `userName`, `userNik`, `currentScan`. It
  has login, logout, the recognition step, save and cancel. `LocalStore` is a
  class whose fields map file names to their contents. A workbook is a
  sequence of records; a CSV file is a sequence of lines, each a header or a
  record.
- `CsvRepair` covers `fix_csv.py`: a loop over the lines after the old header,
  proved against a function that says which rows it collects, plus the
  per-line normalisation.

The recognition engines, the clock and the outcome of each file write are
inputs:

- The local reader gives `Option<seq<string>>`. `None` means easyocr could not
  be loaded.
- The remote service gives an `OcrReply` record. `TransportFailure` is the
  reply `ocr_space_api` builds when the request raises.
- The timestamp is a string argument.
- Two booleans say whether the Excel step and the CSV step succeed.

Two points of the code worth knowing:

- The pattern is `\d{7}` with no word boundary, so the eighth digit of an
  eight-digit run does not stop a match (`ExtractFromLongerRun`).
- Logout leaves `user_name` as it was.

## Model

| member | source | states |
|---|---|---|
| `CodeScan.FirstRunFrom` | app.py:245 | The position returned starts seven digits, and no earlier position at or after the start does; `None` means no position at or after the start begins seven digits |
| `CodeScan.ExtractCode` | app.py:244-247 | A code is found iff seven consecutive digits occur somewhere; the code found has length 7, is all digits, and is the substring at the leftmost such position |
| `CodeScan.ExtractLeftmost` | app.py:245-247 | For any text, the substring at the leftmost run of seven digits is exactly the extracted code |
| `CodeScan.CodeAfterNonDigits` | app.py:245-247 | A code preceded only by non-digits is extracted unchanged, whatever text follows it |
| `CodeScan.ExtractFromLongerRun` | app.py:245-247 | "12345678" yields "1234567" |
| `CodeScan.ExtractFirstOfTwo` | app.py:245-247 | "1234567 and 7654321" yields "1234567": the first occurrence wins |
| `CodeScan.ExtractSurrounded` | app.py:245-247 | "ABC 1234567 XYZ" yields "1234567" |
| `CodeScan.ExtractBrokenRun` | app.py:245-255 | "lot 123456-7" holds no run of seven digits, so nothing is extracted |
| `CodeScan.LocalText` | app.py:229-233 | Non-empty only when the reader exists and returned at least one fragment; the text then begins with the first fragment |
| `CodeScan.RemoteText` | app.py:236-242 | Empty for an errored reply or one without parsed results |
| `CodeScan.DetectText` | app.py:227-242 | Non-empty local text is used as it is; empty local text gives way to the remote text; the result is empty iff both are |
| `CodeScan.LocalTextNonEmpty` | app.py:231-233 | The local text is non-empty iff the reader exists and returned more than one fragment or one non-empty fragment |
| `CodeScan.LocalTextWins` | app.py:231-236 | When the local reader gives non-empty text, that joined text is used and the remote reply has no influence on the result |
| `CodeScan.RemoteTextUse` | app.py:236-242 | Text other than the local text is used only when the local text is empty, the reply is not errored and has a parsed result; it is then the first parsed text with CR LF replaced |
| `CodeScan.RemoteTextUsed` | app.py:236-242 | With empty local text, a reply that is not errored and has a parsed result gives the text: its first parsed text with each CR LF replaced by a space |
| `CodeScan.RemoteTextNeedsResult` | app.py:240-242 | Remote text is non-empty only for a non-errored reply with a parsed result, and it never holds CR LF |
| `CodeScan.NothingRecognised` | app.py:236-247 | With no local text and a transport failure the recognised text is empty and no code is extracted |
| `TextOps.Join` | app.py:233 | The joined text begins with the first part |
| `TextOps.JoinEmptyIff` | app.py:233 | A space-joined text is empty iff there are no fragments or one empty fragment (then the remote service is asked) |
| `TextOps.JoinLength` | app.py:233 | The joined length is the sum of the fragment lengths plus one separator between each pair of neighbours |
| `TextOps.ReplaceCrLf` | app.py:242 | Through `ReplaceCrLfAtPair` and `ReplaceCrLfIdentity`: each CR LF, scanning from the left, becomes exactly one space and every other character is kept in order; `ReplaceCrLfShape` gives the shape of the result |
| `TextOps.ReplaceCrLfShape` | app.py:242 | The result holds no CR LF, is no longer than the input, starts like the input or with a space, and holds only input characters or spaces |
| `TextOps.ReplaceCrLfPairFirst` | app.py:242 | A CR LF at the front becomes one space and the rest is replaced on its own |
| `TextOps.ReplaceCrLfKeepFirst` | app.py:242 | A first character that does not start a CR LF is kept and the rest is replaced on its own |
| `TextOps.ReplaceCrLfAtPair` | app.py:242 | Around any CR LF the text on each side is replaced on its own and the pair becomes exactly one space; with `ReplaceCrLfIdentity` this fixes the result for every input |
| `TextOps.ReplaceCrLfIdentity` | app.py:242 | Text without CR LF is left unchanged |
| `TextOps.ReplaceCrLfIdempotent` | app.py:242 | Replacing twice gives the same as replacing once |
| `TextOps.Split` | fix_csv.py:14 | `split` never returns an empty list, returns one field more than there are separators, and no field holds the separator |
| `TextOps.JoinSplit` | fix_csv.py:14 | Joining the fields of a split with the same separator rebuilds the text |
| `TextOps.SplitJoin` | fix_csv.py:14 | Splitting a join of separator-free fields gives the fields back |
| `TextOps.SkipSpaces` | fix_csv.py:14 | The position returned is the first at or after the start that is not whitespace, or the end; everything skipped is whitespace |
| `TextOps.TrimEnd` | fix_csv.py:14 | Scanning back, the position returned follows the last non-whitespace character, or is the lower bound; everything after it is whitespace |
| `TextOps.Strip` | fix_csv.py:14 | The stripped line is one contiguous piece of the line; everything before and after it is whitespace, and it neither starts nor ends with whitespace |
| `TextOps.StripIdempotent` | fix_csv.py:14 | Stripping twice gives the same as stripping once |
| `ScanSession.FirstMatchFrom` | app.py:35 | The index returned is the first row at or after the start whose NIK and password both match; `None` means no such row |
| `ScanSession.FindUser` | app.py:33-43 | A user is found iff the table loaded and some row matches both NIK and password; the user found is the first matching row |
| `ScanSession.FirstMatchingRowWins` | app.py:35-40 | The first matching row is logged in, whatever matching rows follow it |
| `ScanSession.SafeNik` | app.py:110 | Never empty; a non-empty NIK is used as it is |
| `ScanSession.WorkbookPath` | app.py:110-111 | The name is "data_", the file-name NIK, then ".xlsx" |
| `ScanSession.CsvPath` | app.py:126-128 | The name is "data_", the file-name NIK, then ".csv" |
| `ScanSession.WorkbookPathInjective` | app.py:110-111 | Two NIKs write the same workbook iff their file-name NIKs agree |
| `ScanSession.EmptyNikIsUnknown` | app.py:110-111 | An empty NIK saves to data_unknown.xlsx (CSV: data_unknown.csv), the same files as the NIK "unknown" |
| `ScanSession.WorkbookIsNeverCsv` | app.py:110-128 | For any two NIKs, the workbook path and the CSV fallback path differ |
| `ScanSession.AppendWorkbook` | app.py:113-120 | The workbook gains exactly one row at the end; its earlier rows (none for a new file) are unchanged; every other file is unchanged |
| `ScanSession.AppendCsv` | app.py:127-131 | Existing lines are kept and the record comes last; a header is written iff the file did not exist; every other file is unchanged |
| `ScanSession.AppendCsvWellFormed` | app.py:129-131 | If every CSV file has one header at the top followed by records only, the fallback keeps it that way |
| `ScanSession.AppendCsvReadBack` | app.py:129-131 | Reading the CSV file back gives its earlier records followed by the new record |
| `ScanSession.LocalStore.constructor` | app.py:106-134 | The store holds the given files, whose CSV files are well formed, and keeps the file invariant |
| `ScanSession.LocalStore.SaveLocal` | app.py:106-134 | The record is appended to the NIK's workbook; the CSV file is appended to only when the Excel step fails; if both fail nothing changes; the file invariant is kept |
| `ScanSession.Session.constructor` | app.py:16-24 | A new session is logged out, with empty name and NIK and no pending scan |
| `ScanSession.Session.CheckLogin` | app.py:27-46 | Succeeds iff the user table loaded, has a `name` column and a row matches both NIK and password; the first matching row sets name and NIK. With no matching row the session is unchanged; a match in a table without a `name` column fails but leaves the session logged in with its old name and NIK |
| `ScanSession.Session.Logout` | app.py:187-191 | Afterwards the session is logged out, has no pending scan and an empty NIK; the name is kept |
| `ScanSession.Session.RunOcr` | app.py:225-255 | Runs only while logged in with no pending scan. A found code becomes the pending scan; with no code nothing is stored and the raw text is reported; login fields are unchanged |
| `ScanSession.Session.Save` | app.py:268-277 | The pending code, a seven-digit code by the session invariant, is saved under the session's name and NIK as `SaveLocal` describes; the pending scan is cleared |
| `ScanSession.Session.Cancel` | app.py:280-282 | Clears the pending scan and changes nothing else |
| `CsvRepair.Fields` | fix_csv.py:14 | There is always at least one field; a blank line has the one empty field |
| `CsvRepair.FieldsOfLine` | fix_csv.py:14 | No field holds a comma; there is one field more than the stripped line has commas; joining the fields with "," rebuilds the stripped line |
| `CsvRepair.NormaliseRow` | fix_csv.py:22-28 | Always 7 columns. Five fields map to `[p0, p1, "", p2, "", p3, p4]` and six fields to `[p0, p1, "", p2, p3, p4, p5]`; seven or more keep their first seven |
| `CsvRepair.NormaliseRowIdempotent` | fix_csv.py:27-28 | A seven-field row is unchanged, so normalising twice is normalising once |
| `CsvRepair.DataLines` | fix_csv.py:13 | Every line but the first, in order; nothing for an empty file |
| `CsvRepair.OldHeaderSkipped` | fix_csv.py:13 | The first line is dropped whatever it holds |
| `CsvRepair.LineRows` | fix_csv.py:14-30 | One line contributes at most one row |
| `CsvRepair.NormaliseLines` | fix_csv.py:13-30 | No more rows come out than lines go in |
| `CsvRepair.NormaliseOneLine` | fix_csv.py:14-30 | A line with fewer than five fields gives no row; any other line gives exactly its normalised row |
| `CsvRepair.NormaliseLinesAppend` | fix_csv.py:13-30 | Rows keep input order: the rows of two line sequences joined are their rows joined |
| `CsvRepair.NormaliseLinesCount` | fix_csv.py:13-15 | The number of rows is the number of lines with at least five fields |
| `CsvRepair.NormaliseLinesWidth` | fix_csv.py:22-30 | Every row has exactly seven fields |
| `CsvRepair.NormaliseLinesStep` | fix_csv.py:13-30 | Taking one more line of the input adds exactly that line's contribution at the end |
| `CsvRepair.FixRows` | fix_csv.py:13-30 | The loop collects exactly the rows `NormaliseLines` describes for the lines after the first |
| `CsvRepair.FixCsv` | fix_csv.py:9-40 | Nothing is written iff the file does not exist; otherwise the output is the fixed 7-name header then the normalised rows, each of 7 fields |

## Left out

- CodeScan.IsDigit: covers only '0'-'9'. Python's `\d` on text also matches the decimal digits of other scripts; the model assumes the recognised text uses ASCII digits.
- CodeScan.RemoteText: assumes `ParsedResults[0]` has a `ParsedText` entry. If the entry is missing, `.get` returns `None` and `.replace` raises; that crash is not modelled. It also assumes the decoded reply is a JSON object: for any other JSON value, `api_res.get` at app.py:240 raises outside the `try` of `ocr_space_api`. Finally, `requests.post` (app.py:156) has no timeout. A stalled request therefore blocks the rerun rather than producing `TransportFailure`, and the model does not capture that.
- ScanSession.FindUser: reads every users.csv cell as a string. Even with `dtype=str` (app.py:33), pandas reads an empty cell and its default missing-value markers as NaN; the markers include "NA", "N/A", "null", "None" and "nan". NaN never equals an input, so `check_login` never matches a row whose NIK or password is one of these, while `MatchesUser` does. That case is not modelled.
- ScanSession.LocalStore.SaveLocal: assumes that reading an existing workbook back gives exactly the rows saved before. A failed Excel step is assumed to leave the workbook unchanged. Column type conversions by pandas are not modelled.
- ScanSession.AppendWorkbook, ScanSession.AppendCsv and ScanSession.LocalStore.SaveLocal: saves are modelled one at a time on a single map of files, so their "one row appended, earlier rows unchanged" promises assume a single writer. Streamlit serves every browser session from one process. Two sessions with the same file-name NIK running `save_data` at once can therefore lose a row: both read the workbook (app.py:115-120) and the second write drops the first session's row. They can also truncate the CSV file: another session may create it between the two `os.path.exists` calls at app.py:129-130, which then opens it with mode 'w' and no header. Concurrency is not modelled.
- Google Sheets (`get_gspread_client` and the `append_row` path in `save_data`): a remote service with credentials, left out. The client lookup is assumed to return a client or None without raising. It runs outside any `try` (app.py:89), so if the secrets lookup at app.py:65 raised, `save_data` would stop before the Excel step; the model does not capture that.
- The OCR engines (`load_reader`, easyocr, the HTTP call in `ocr_space_api`), image decoding and JPEG encoding: foreign libraries and the network. Their results are inputs.
- Streamlit rendering, forms, columns, spinners, toasts and reruns: presentation only. Each button handler is a method, called only where the page shows the button.
- The history view (sort by timestamp, first five rows) and the "delete my data" action: library calls on file contents and file deletion.
- `fix_csv.py` writes with `csv.writer`, which adds quotes to fields holding `"`. This serialisation is not modelled: the output is the table of fields handed to the writer. Reading the file and the final `print` are I/O.
- debug_sheets.py and test_imports.py are not part of this model: a connection tester and an import check, with no logic of their own.
