/**
 * The scanner page's per-session state and its local storage (app.py):
 * login against users.csv, the one-pending-scan rule, save, cancel and
 * logout, and the part of `save_data` that writes the per-user Excel file
 * with its CSV fallback.
 *
 * Files are modelled by name: a workbook is its sequence of records, a CSV
 * file its sequence of lines. Whether the Excel step and the CSV step raise,
 * and the clock's timestamp, are inputs.
 */
module ScanSession {
  import opened Options
  import opened CodeScan

  /** The value of `current_scan` while a code waits for confirmation. */
  datatype PendingScan = PendingScan(number: string, imageName: string)

  /** One row of users.csv, read with every column as text; `name` is meaningful only when the file has that column. */
  datatype UserRow = UserRow(nik: string, password: string, name: string)

  /**
   * users.csv as `check_login` finds it: absent; failing to load or lacking
   * the `nik` or `password` column (the lookup raises before any match); or a
   * table, which may lack the `name` column read only after a match.
   */
  datatype UserTable = NoUserFile | Unreadable | Users(rows: seq<UserRow>, hasNameColumn: bool)

  /** The record `save_data` builds (app.py:80-86). */
  datatype ScanRecord = ScanRecord(
    timestamp: string,
    takerName: string,
    componentNumber: string,
    quantity: int,
    imageName: string)

  /** One line of a per-user CSV file: the column header or a record. */
  datatype CsvLine = CsvHeader | CsvRow(record: ScanRecord)

  /** What the recognition step reports on the page. */
  datatype OcrOutcome = NotRun | CodeFound(code: string) | NoCodeFound(rawText: string)

  /** The image name used when the image buffer carries none. */
  const CameraImageName: string := "camera_capture.jpg"

  // ---------------------------------------------------------------------------
  // login

  predicate MatchesUser(u: UserRow, nik: string, password: string) {
    u.nik == nik && u.password == password
  }

  /** The first row at or after `from` whose NIK and password both match. */
  function FirstMatchFrom(rows: seq<UserRow>, nik: string, password: string, from: nat): (r: Option<nat>)
    ensures r.Some? ==> from <= r.value < |rows| && MatchesUser(rows[r.value], nik, password)
    ensures r.Some? ==> forall j :: from <= j < r.value ==> !MatchesUser(rows[j], nik, password)
    ensures r.None? ==> forall j :: from <= j < |rows| ==> !MatchesUser(rows[j], nik, password)
    decreases |rows| - from
  {
    if from >= |rows| then None
    else if MatchesUser(rows[from], nik, password) then Some(from)
    else FirstMatchFrom(rows, nik, password, from + 1)
  }

  /**
   * The user `check_login` logs in: found exactly when the table loaded and
   * some row matches both NIK and password, and then the first such row.
   */
  function FindUser(users: UserTable, nik: string, password: string): (r: Option<UserRow>)
    ensures r.Some? <==> users.Users? && exists i :: 0 <= i < |users.rows| && MatchesUser(users.rows[i], nik, password)
    ensures r.Some? ==> exists i :: 0 <= i < |users.rows| && users.rows[i] == r.value
                                    && MatchesUser(r.value, nik, password)
                                    && forall j :: 0 <= j < i ==> !MatchesUser(users.rows[j], nik, password)
  {
    if !users.Users? then None
    else match FirstMatchFrom(users.rows, nik, password, 0)
      case None => None
      case Some(i) => Some(users.rows[i])
  }

  /** A matching row that comes first is the one logged in, whatever rows follow. */
  lemma FirstMatchingRowWins(rows: seq<UserRow>, hasNameColumn: bool, nik: string, password: string, i: nat)
    requires i < |rows| && MatchesUser(rows[i], nik, password)
    requires forall j :: 0 <= j < i ==> !MatchesUser(rows[j], nik, password)
    ensures FindUser(Users(rows, hasNameColumn), nik, password) == Some(rows[i])
  {
    assert FirstMatchFrom(rows, nik, password, 0).Some?;
  }

  // ---------------------------------------------------------------------------
  // file names

  /** The NIK used in file names: "unknown" stands in for an empty NIK. */
  function SafeNik(nik: string): (r: string)
    ensures r != ""
    ensures nik != "" ==> r == nik
  {
    if nik == "" then "unknown" else nik
  }

  /** `data_<nik>.xlsx`: the file-name NIK between the fixed prefix and suffix. */
  function WorkbookPath(nik: string): (r: string)
    ensures |r| == |SafeNik(nik)| + 10
    ensures r[..5] == "data_" && r[5..|r| - 5] == SafeNik(nik) && r[|r| - 5..] == ".xlsx"
  {
    "data_" + SafeNik(nik) + ".xlsx"
  }

  /** `data_<nik>.csv`: the file-name NIK between the fixed prefix and suffix. */
  function CsvPath(nik: string): (r: string)
    ensures |r| == |SafeNik(nik)| + 9
    ensures r[..5] == "data_" && r[5..|r| - 4] == SafeNik(nik) && r[|r| - 4..] == ".csv"
  {
    "data_" + SafeNik(nik) + ".csv"
  }

  /** Two NIKs share a workbook exactly when they have the same file-name NIK. */
  lemma {:induction false} WorkbookPathInjective(a: string, b: string)
    ensures WorkbookPath(a) == WorkbookPath(b) <==> SafeNik(a) == SafeNik(b)
  {
    var x, y := SafeNik(a), SafeNik(b);
    if WorkbookPath(a) == WorkbookPath(b) {
      var p, q := WorkbookPath(a), WorkbookPath(b);
      assert |x| == |y|;
      assert p[5..5 + |x|] == x;
      assert q[5..5 + |y|] == y;
    }
  }

  /** An empty NIK writes to the same workbook as the NIK "unknown". */
  lemma EmptyNikIsUnknown()
    ensures WorkbookPath("") == "data_unknown.xlsx" == WorkbookPath("unknown")
    ensures CsvPath("") == "data_unknown.csv" == CsvPath("unknown")
  {
  }

  /** The workbook and the CSV fallback are never the same file, for any two NIKs. */
  lemma WorkbookIsNeverCsv(a: string, b: string)
    ensures WorkbookPath(a) != CsvPath(b)
  {
    var p, q := WorkbookPath(a), CsvPath(b);
    assert p[|p| - 1] == 'x';
    assert q[|q| - 1] == 'v';
  }

  // ---------------------------------------------------------------------------
  // appending to the per-user files

  /** The contents of `path`, empty when the file does not exist. */
  function Existing<T>(files: map<string, seq<T>>, path: string): seq<T> {
    if path in files then files[path] else []
  }

  /**
   * The Excel step: the existing rows, or none for a new file, followed by
   * the new record. Every other file is left as it was.
   */
  function AppendWorkbook(files: map<string, seq<ScanRecord>>, path: string, rec: ScanRecord): (r: map<string, seq<ScanRecord>>)
    ensures r.Keys == files.Keys + {path}
    ensures forall p :: p in files && p != path ==> r[p] == files[p]
    ensures var before := Existing(files, path);
            && |r[path]| == |before| + 1
            && r[path][..|before|] == before
            && r[path][|before|] == rec
  {
    files[path := Existing(files, path) + [rec]]
  }

  /**
   * The CSV fallback: the file is opened for appending when it exists and
   * written afresh otherwise, and the column header is written exactly when
   * it did not exist. Existing lines are kept and the record comes last.
   */
  function AppendCsv(files: map<string, seq<CsvLine>>, path: string, rec: ScanRecord): (r: map<string, seq<CsvLine>>)
    ensures r.Keys == files.Keys + {path}
    ensures forall p :: p in files && p != path ==> r[p] == files[p]
    ensures var before := Existing(files, path);
            && |before| < |r[path]|
            && r[path][..|before|] == before
            && r[path][|r[path]| - 1] == CsvRow(rec)
            && (CsvHeader in r[path][|before|..] <==> path !in files)
            && |r[path]| == |before| + (if path in files then 1 else 2)
  {
    if path in files then
      files[path := files[path] + [CsvRow(rec)]]
    else
      var created := [CsvHeader, CsvRow(rec)];
      assert created[0..] == created;
      files[path := created]
  }

  /** A CSV file as this program writes it: the header, then records only. */
  predicate WellFormedCsv(lines: seq<CsvLine>) {
    |lines| > 0 && lines[0] == CsvHeader && forall k :: 0 < k < |lines| ==> lines[k].CsvRow?
  }

  /** The records of a CSV file, in order, as reading it back gives them. */
  function RecordsOf(lines: seq<CsvLine>): seq<ScanRecord> {
    if |lines| == 0 then []
    else
      var last := lines[|lines| - 1];
      RecordsOf(lines[..|lines| - 1]) + (if last.CsvRow? then [last.record] else [])
  }

  /** The fallback keeps every CSV file well formed: one header, at the top. */
  lemma AppendCsvWellFormed(files: map<string, seq<CsvLine>>, path: string, rec: ScanRecord)
    requires forall p :: p in files ==> WellFormedCsv(files[p])
    ensures forall p :: p in AppendCsv(files, path, rec) ==> WellFormedCsv(AppendCsv(files, path, rec)[p])
  {
    var r := AppendCsv(files, path, rec);
    forall p | p in r
      ensures WellFormedCsv(r[p])
    {
      if p == path && path in files {
        assert r[p] == files[p] + [CsvRow(rec)];
      }
    }
  }

  /** Reading the CSV file back after the fallback gives the earlier records followed by the new one. */
  lemma AppendCsvReadBack(files: map<string, seq<CsvLine>>, path: string, rec: ScanRecord)
    ensures RecordsOf(AppendCsv(files, path, rec)[path]) == RecordsOf(Existing(files, path)) + [rec]
  {
    var lines := AppendCsv(files, path, rec)[path];
    if path in files {
      assert lines[..|lines| - 1] == files[path];
    } else {
      assert lines[..1] == [CsvHeader];
      assert [CsvHeader][..0] == [];
    }
  }

  // ---------------------------------------------------------------------------
  // the local files

  /** The per-user files in the working directory. */
  class LocalStore {
    var workbooks: map<string, seq<ScanRecord>>
    var csvFiles: map<string, seq<CsvLine>>

    ghost predicate Valid()
      reads this
    {
      forall p :: p in csvFiles ==> WellFormedCsv(csvFiles[p])
    }

    constructor (workbooks: map<string, seq<ScanRecord>>, csvFiles: map<string, seq<CsvLine>>)
      requires forall p :: p in csvFiles ==> WellFormedCsv(csvFiles[p])
      ensures Valid()
      ensures this.workbooks == workbooks && this.csvFiles == csvFiles
    {
      this.workbooks := workbooks;
      this.csvFiles := csvFiles;
    }

    /**
     * The local half of `save_data`: append the record to the NIK's workbook;
     * only when that raises, append it to the NIK's CSV file, and when that
     * raises too, change nothing.
     */
    method SaveLocal(rec: ScanRecord, nik: string, excelWorks: bool, csvWorks: bool)
      requires Valid()
      modifies this
      ensures Valid()
      ensures workbooks == if excelWorks then AppendWorkbook(old(workbooks), WorkbookPath(nik), rec)
                           else old(workbooks)
      ensures csvFiles == if !excelWorks && csvWorks then AppendCsv(old(csvFiles), CsvPath(nik), rec)
                          else old(csvFiles)
    {
      if excelWorks {
        workbooks := AppendWorkbook(workbooks, WorkbookPath(nik), rec);
      } else if csvWorks {
        AppendCsvWellFormed(csvFiles, CsvPath(nik), rec);
        csvFiles := AppendCsv(csvFiles, CsvPath(nik), rec);
      }
    }
  }

  // ---------------------------------------------------------------------------
  // the session

  /** `st.session_state` of one browser session. */
  class Session {
    var loggedIn: bool
    var userName: string
    var userNik: string
    var currentScan: Option<PendingScan>

    /** A pending scan exists only while logged in, and it always holds a seven-digit code. */
    ghost predicate Valid()
      reads this
    {
      currentScan.Some? ==> loggedIn && IsCode(currentScan.value.number)
    }

    /** The initial session state (app.py:17-24). */
    constructor ()
      ensures Valid()
      ensures !loggedIn && userName == "" && userNik == "" && currentScan == None
    {
      loggedIn, userName, userNik, currentScan := false, "", "", None;
    }

    /**
     * `check_login`: succeeds exactly when users.csv loads, has a `name`
     * column and has a row with this NIK and password; the first such row
     * gives the session its name and NIK. Without a matching row the session
     * is left as it was. A matching row in a file without a `name` column
     * sets `logged_in` before reading the name raises, so the call fails but
     * the session stays logged in with its old name and NIK.
     */
    method CheckLogin(users: UserTable, nik: string, password: string) returns (ok: bool)
      requires Valid()
      modifies this
      ensures Valid()
      ensures ok <==> && users.Users? && users.hasNameColumn
                      && exists i :: 0 <= i < |users.rows| && MatchesUser(users.rows[i], nik, password)
      ensures ok ==> var u := FindUser(users, nik, password).value;
                     loggedIn && userName == u.name && userNik == u.nik && userNik == nik
      ensures currentScan == old(currentScan)
      ensures FindUser(users, nik, password).None? ==> !ok && unchanged(this)
      ensures FindUser(users, nik, password).Some? && !users.hasNameColumn ==>
                && !ok && loggedIn
                && userName == old(userName) && userNik == old(userNik)
    {
      var found := FindUser(users, nik, password);
      ok := false;
      if found.Some? {
        loggedIn := true;
        if users.hasNameColumn {
          userName := found.value.name;
          userNik := found.value.nik;
          ok := true;
        }
      }
    }

    /** The Logout button: logged out, no pending scan, empty NIK; the name is kept. */
    method Logout()
      requires Valid()
      modifies this
      ensures Valid()
      ensures !loggedIn && currentScan == None && userNik == ""
      ensures userName == old(userName)
    {
      loggedIn := false;
      currentScan := None;
      userNik := "";
    }

    /**
     * The recognition step for a shown image: it runs only while logged in and
     * no scan is pending. A code found in the recognised text becomes the
     * pending scan; otherwise nothing is stored and the raw text is reported.
     */
    method RunOcr(reader: Option<seq<string>>, reply: OcrReply, uploadName: Option<string>) returns (outcome: OcrOutcome)
      requires Valid()
      modifies this
      ensures Valid()
      ensures loggedIn == old(loggedIn) && userName == old(userName) && userNik == old(userNik)
      ensures old(!loggedIn || currentScan.Some?) ==> outcome == NotRun && currentScan == old(currentScan)
      ensures old(loggedIn && currentScan.None?) ==>
                var text := DetectText(reader, reply);
                match ExtractCode(text)
                case Some(code) =>
                  outcome == CodeFound(code)
                  && currentScan == Some(PendingScan(code, uploadName.GetOr(CameraImageName)))
                case None =>
                  outcome == NoCodeFound(text) && currentScan == None
    {
      if !loggedIn || currentScan.Some? {
        outcome := NotRun;
        return;
      }
      var text := DetectText(reader, reply);
      var found := ExtractCode(text);
      if found.Some? {
        currentScan := Some(PendingScan(found.value, uploadName.GetOr(CameraImageName)));
        outcome := CodeFound(found.value);
      } else {
        outcome := NoCodeFound(text);
      }
    }

    /**
     * The Save button of the confirmation form: the pending code is saved
     * under the session's name and NIK, then the pending scan is cleared.
     * Without a pending scan there is no form and nothing is saved.
     */
    method Save(store: LocalStore, quantity: int, timestamp: string, excelWorks: bool, csvWorks: bool)
      requires Valid() && store.Valid()
      requires quantity >= 1
      modifies this, store
      ensures Valid() && store.Valid()
      ensures currentScan == None
      ensures loggedIn == old(loggedIn) && userName == old(userName) && userNik == old(userNik)
      ensures old(currentScan.Some?) ==> IsCode(old(currentScan.value.number))
      ensures old(currentScan.None?) ==> store.workbooks == old(store.workbooks) && store.csvFiles == old(store.csvFiles)
      ensures old(currentScan.Some?) ==>
                var rec := ScanRecord(timestamp, userName, old(currentScan.value.number), quantity, old(currentScan.value.imageName));
                && store.workbooks == (if excelWorks then AppendWorkbook(old(store.workbooks), WorkbookPath(userNik), rec)
                                       else old(store.workbooks))
                && store.csvFiles == (if !excelWorks && csvWorks then AppendCsv(old(store.csvFiles), CsvPath(userNik), rec)
                                      else old(store.csvFiles))
    {
      if currentScan.Some? {
        var scan := currentScan.value;
        store.SaveLocal(ScanRecord(timestamp, userName, scan.number, quantity, scan.imageName), userNik, excelWorks, csvWorks);
      }
      currentScan := None;
    }

    /** The Cancel / rescan button: the pending scan is dropped and nothing else changes. */
    method Cancel()
      requires Valid()
      modifies this
      ensures Valid()
      ensures currentScan == None
      ensures loggedIn == old(loggedIn) && userName == old(userName) && userNik == old(userNik)
    {
      currentScan := None;
    }
  }
}
