/**
 * The school-event app of DEVISOFT/app.py: the three stores it loads at
 * start-up, the registration form, the notice board and the admin form.
 *
 * Everything below the sidebar is shown only to a logged-in session (the
 * script calls st.stop() otherwise); a button handler that runs without a
 * login therefore returns Stopped and writes nothing. Each write reads the
 * whole file, appends one row at index len(df) and writes the whole file back.
 */
module App {
  import opened Wrappers
  import opened CsvStore
  import Login

  const AdminPassword: string := "sgs2025"
  const RegFile: string := "registrations.csv"
  const NoticeFile: string := "notices.csv"
  const AllowedFile: string := "allowed_users.csv"

  const RegColumns: seq<string> :=
    ["Timestamp", "Name", "Class", "Section", "Item", "Contact", "Address", "Bus", "Status"]
  const NoticeColumns: seq<string> := ["Timestamp", "Title", "Message", "PostedBy"]
  const AllowedColumns: seq<string> := ["mobile_number", "student_name"]

  /** The cell of `row` under the column called `name`. */
  function Field(columns: seq<string>, row: seq<string>, name: string): string
    requires name in columns && |row| == |columns|
  {
    row[ColumnIndex(columns, name).value]
  }

  /** Each column of the registration header is found at its own position. */
  lemma RegColumnIndex(k: nat)
    requires k < |RegColumns|
    ensures ColumnIndex(RegColumns, RegColumns[k]) == Some(k)
  {
    assert Distinct(RegColumns);
    DistinctColumnIndex(RegColumns, k);
  }

  /** Each column of the notice header is found at its own position. */
  lemma NoticeColumnIndex(k: nat)
    requires k < |NoticeColumns|
    ensures ColumnIndex(NoticeColumns, NoticeColumns[k]) == Some(k)
  {
  }

  /**
   * The three loads at the top of every run of the script, in its order: the
   * tables and the file system afterwards. Every store then reads back, and a
   * store that read before is left as it was.
   */
  function StartupLoads(files: Files): (r: (Table, Table, Table, Files))
    ensures ReadCsv(r.3, RegFile) == Some(r.0)
    ensures ReadCsv(r.3, NoticeFile) == Some(r.1)
    ensures ReadCsv(r.3, AllowedFile) == Some(r.2)
    ensures ReadCsv(files, RegFile).Some? ==> r.0 == ReadCsv(files, RegFile).value
    ensures ReadCsv(files, NoticeFile).Some? ==> r.1 == ReadCsv(files, NoticeFile).value
    ensures ReadCsv(files, AllowedFile).Some? ==> r.2 == ReadCsv(files, AllowedFile).value
    ensures ReadCsv(files, RegFile).None? ==> r.0 == EmptyTable(RegColumns)
    ensures ReadCsv(files, NoticeFile).None? ==> r.1 == EmptyTable(NoticeColumns)
    ensures ReadCsv(files, AllowedFile).None? ==> r.2 == EmptyTable(AllowedColumns)
    ensures forall other :: other !in {RegFile, NoticeFile, AllowedFile} ==> ReadCsv(r.3, other) == ReadCsv(files, other)
  {
    var (reg, f1) := Load(files, RegFile, RegColumns);
    var (notices, f2) := Load(f1, NoticeFile, NoticeColumns);
    var (allowed, f3) := Load(f2, AllowedFile, AllowedColumns);
    LoadTouchesOneFile(f1, NoticeFile, NoticeColumns, RegFile);
    LoadTouchesOneFile(f2, AllowedFile, AllowedColumns, RegFile);
    LoadTouchesOneFile(f2, AllowedFile, AllowedColumns, NoticeFile);
    (reg, notices, allowed, f3)
  }

  /** The three loads at start-up, in the script's order. */
  method Startup(fs: FileSystem) returns (reg: Table, notices: Table, allowed: Table)
    modifies fs
    ensures (reg, notices, allowed, fs.files) == StartupLoads(old(fs.files))
  {
    reg := LoadCsv(fs, RegFile, RegColumns);
    notices := LoadCsv(fs, NoticeFile, NoticeColumns);
    allowed := LoadCsv(fs, AllowedFile, AllowedColumns);
  }

  /**
   * The allow-list, allowed_df["mobile_number"].astype(str).values: the strings
   * found in some row under mobile_number; None where the column is missing.
   */
  function AllowList(t: Table): (r: Option<set<string>>)
    ensures r.Some? <==> "mobile_number" in t.columns
    ensures r.Some? ==> forall m :: m in r.value <==>
      exists i :: 0 <= i < |t.rows| && t.rows[i][ColumnIndex(t.columns, "mobile_number").value] == m
  {
    ColumnValues(t, "mobile_number")
  }

  /**
   * When allowed_users.csv is missing or unreadable, load_csv leaves an empty
   * allow-list, and then no "Send OTP" issues a code and nobody logs in.
   */
  lemma MissingAllowedFileLocksOut(files: Files, es: seq<Login.Event>)
    requires ReadCsv(files, AllowedFile).None?
    ensures AllowList(Load(files, AllowedFile, AllowedColumns).0) == Some({})
    ensures Login.Run(Login.Initial(), AllowList(Load(files, AllowedFile, AllowedColumns).0).value, es) == Login.Initial()
  {
    var t := Load(files, AllowedFile, AllowedColumns).0;
    assert t == EmptyTable(AllowedColumns);
    assert ColumnIndex(AllowedColumns, "mobile_number") == Some(0);
    var values := ColumnValues(t, "mobile_number");
    assert values.Some?;
    assert forall v :: v !in values.value;
    assert values.value == {};
    Login.EmptyAllowListLocksOut(es);
  }

  /**
   * The same at the top of a run: when allowed_users.csv cannot be read, the
   * allow-list that start-up leaves is empty and nobody can log in.
   */
  lemma StartupWithoutAllowedFileLocksOut(files: Files, es: seq<Login.Event>)
    requires ReadCsv(files, AllowedFile).None?
    ensures AllowList(StartupLoads(files).2) == Some({})
    ensures Login.Run(Login.Initial(), AllowList(StartupLoads(files).2).value, es) == Login.Initial()
  {
    var f2 := Load(Load(files, RegFile, RegColumns).1, NoticeFile, NoticeColumns).1;
    LoadTouchesOneFile(files, RegFile, RegColumns, AllowedFile);
    LoadTouchesOneFile(Load(files, RegFile, RegColumns).1, NoticeFile, NoticeColumns, AllowedFile);
    assert ReadCsv(f2, AllowedFile).None?;
    MissingAllowedFileLocksOut(f2, es);
  }

  datatype WriteOutcome = Written | Stopped | ReadFailed | ColumnMismatch | IncorrectPassword

  /**
   * Read `name`, append `row` at index len(df), write the file back. The read
   * raises when the file cannot be parsed; the append raises when the row is
   * not as wide as the header. Either way nothing is written.
   */
  function AppendRecord(files: Files, name: string, row: seq<string>): (r: (Files, WriteOutcome))
    ensures r.1 in {Written, ReadFailed, ColumnMismatch}
    ensures r.1 == ReadFailed <==> ReadCsv(files, name).None?
    ensures r.1 == ColumnMismatch <==> ReadCsv(files, name).Some? && |row| != |ReadCsv(files, name).value.columns|
    ensures r.1 != Written ==> r.0 == files
    ensures r.1 == Written ==>
      var before := ReadCsv(files, name).value;
      && ReadCsv(r.0, name).Some?
      && var after := ReadCsv(r.0, name).value;
      && after.columns == before.columns
      && |after.rows| == |before.rows| + 1
      && after.rows[..|before.rows|] == before.rows
      && after.rows[|before.rows|] == row
    ensures forall other :: other != name ==> ReadCsv(r.0, other) == ReadCsv(files, other)
  {
    match ReadCsv(files, name)
    case None => (files, ReadFailed)
    case Some(t) =>
      if |row| != |t.columns| then (files, ColumnMismatch)
      else (files[name := Some(Frame(t.columns, t.rows + [row]))], Written)
  }

  /** The read / df.loc[len(df)] = row / to_csv sequence shared by both forms. */
  method AppendRecordToFile(fs: FileSystem, name: string, row: seq<string>) returns (outcome: WriteOutcome)
    modifies fs
    ensures (fs.files, outcome) == AppendRecord(old(fs.files), name, row)
  {
    var read := fs.Read(name);
    if read.None? {
      return ReadFailed;
    }
    var df := new DataFrame(read.value);
    var ok := df.AppendRow(row);
    if !ok {
      return ColumnMismatch;
    }
    fs.Write(name, df.Contents());
    outcome := Written;
  }

  /** Appending rows one after another, each to whatever the previous append left. */
  function AppendAll(files: Files, name: string, rows: seq<seq<string>>): Files
    decreases |rows|
  {
    if rows == [] then files
    else AppendRecord(AppendAll(files, name, rows[..|rows| - 1]), name, rows[|rows| - 1]).0
  }

  /** Appending N rows of the right width and reading back gives the old rows then those N, in order. */
  lemma {:induction false} AppendAllRoundTrip(files: Files, name: string, t: Table, rows: seq<seq<string>>)
    requires ReadCsv(files, name) == Some(t)
    requires forall i :: 0 <= i < |rows| ==> |rows[i]| == |t.columns|
    ensures ReadCsv(AppendAll(files, name, rows), name) == Some(Frame(t.columns, t.rows + rows))
    decreases |rows|
  {
    if rows != [] {
      var front := rows[..|rows| - 1];
      AppendAllRoundTrip(files, name, t, front);
      var mid := AppendAll(files, name, front);
      var last := rows[|rows| - 1];
      assert ReadCsv(mid, name) == Some(Frame(t.columns, t.rows + front));
      var (files1, outcome) := AppendRecord(mid, name, last);
      assert outcome == Written;
      assert ReadCsv(files1, name).value.rows == t.rows + front + [last];
      assert ReadCsv(files1, name).value.columns == t.columns;
      assert AppendAll(files, name, rows) == files1;
      assert t.rows + front + [rows[|rows| - 1]] == t.rows + rows;
    } else {
      assert t.rows + rows == t.rows;
    }
  }

  datatype Bus = Yes | No

  function BusText(b: Bus): string {
    match b
    case Yes => "Yes"
    case No => "No"
  }

  /** The registration form; `contact` is None when the pre-filled session mobile was left as it is. */
  datatype RegistrationForm = RegistrationForm(
    name: string, clas: string, section: string, item: string,
    address: string, bus: Bus, contact: Option<string>)

  /** The row the "Submit" button appends: the nine form values in the header's order, Status "Pending". */
  function RegistrationRow(form: RegistrationForm, sessionMobile: string, now: string): (row: seq<string>)
    ensures |row| == |RegColumns|
    ensures Field(RegColumns, row, "Contact") == form.contact.GetOr(sessionMobile)
    ensures Field(RegColumns, row, "Status") == "Pending"
  {
    RegColumnIndex(5);
    RegColumnIndex(8);
    assert RegColumns[5] == "Contact" && RegColumns[8] == "Status";
    var contact := form.contact.GetOr(sessionMobile);
    var bus := BusText(form.bus);
    [now, form.name, form.clas, form.section, form.item, contact, form.address, bus, "Pending"]
  }

  /** Under the registration header, the cell named by the k-th column is the k-th cell. */
  lemma RegField(row: seq<string>, k: nat, name: string)
    requires |row| == |RegColumns| && k < |RegColumns| && RegColumns[k] == name
    ensures Field(RegColumns, row, name) == row[k]
  {
    RegColumnIndex(k);
  }

  // One lemma per column: each lookup is proved on its own, which keeps every proof small.

  lemma TimestampField(row: seq<string>)
    requires |row| == |RegColumns|
    ensures Field(RegColumns, row, "Timestamp") == row[0]
  {
    RegField(row, 0, "Timestamp");
  }

  lemma NameField(row: seq<string>)
    requires |row| == |RegColumns|
    ensures Field(RegColumns, row, "Name") == row[1]
  {
    RegField(row, 1, "Name");
  }

  lemma ClassField(row: seq<string>)
    requires |row| == |RegColumns|
    ensures Field(RegColumns, row, "Class") == row[2]
  {
    RegField(row, 2, "Class");
  }

  lemma SectionField(row: seq<string>)
    requires |row| == |RegColumns|
    ensures Field(RegColumns, row, "Section") == row[3]
  {
    RegField(row, 3, "Section");
  }

  lemma ItemField(row: seq<string>)
    requires |row| == |RegColumns|
    ensures Field(RegColumns, row, "Item") == row[4]
  {
    RegField(row, 4, "Item");
  }

  lemma ContactField(row: seq<string>)
    requires |row| == |RegColumns|
    ensures Field(RegColumns, row, "Contact") == row[5]
  {
    RegField(row, 5, "Contact");
  }

  lemma AddressField(row: seq<string>)
    requires |row| == |RegColumns|
    ensures Field(RegColumns, row, "Address") == row[6]
  {
    RegField(row, 6, "Address");
  }

  lemma BusField(row: seq<string>)
    requires |row| == |RegColumns|
    ensures Field(RegColumns, row, "Bus") == row[7]
  {
    RegField(row, 7, "Bus");
  }

  lemma StatusField(row: seq<string>)
    requires |row| == |RegColumns|
    ensures Field(RegColumns, row, "Status") == row[8]
  {
    RegField(row, 8, "Status");
  }

  /** Every value of the form sits under its own column of the registration row. */
  lemma RegistrationRowFields(form: RegistrationForm, sessionMobile: string, now: string)
    ensures var row := RegistrationRow(form, sessionMobile, now);
      && Field(RegColumns, row, "Timestamp") == now
      && Field(RegColumns, row, "Name") == form.name
      && Field(RegColumns, row, "Class") == form.clas
      && Field(RegColumns, row, "Section") == form.section
      && Field(RegColumns, row, "Item") == form.item
      && Field(RegColumns, row, "Contact") == form.contact.GetOr(sessionMobile)
      && Field(RegColumns, row, "Address") == form.address
      && Field(RegColumns, row, "Bus") == BusText(form.bus)
      && Field(RegColumns, row, "Status") == "Pending"
  {
    var row := RegistrationRow(form, sessionMobile, now);
    TimestampField(row);
    NameField(row);
    ClassField(row);
    SectionField(row);
    ItemField(row);
    ContactField(row);
    AddressField(row);
    BusField(row);
    StatusField(row);
    assert row == [now, form.name, form.clas, form.section, form.item,
                   form.contact.GetOr(sessionMobile), form.address, BusText(form.bus), "Pending"];
  }

  /**
   * "Submit" on the registration tab: stopped without a login, otherwise the
   * registration row is appended to registrations.csv and nothing else changes.
   */
  function Submit(files: Files, s: Login.SessionState, form: RegistrationForm, now: string): (r: (Files, WriteOutcome))
    requires s.loggedIn ==> s.mobile.Some?
    ensures r.1 == Stopped <==> !s.loggedIn
    ensures r.1 != Written ==> r.0 == files
    ensures r.1 == Written ==>
      && ReadCsv(files, RegFile).Some? && ReadCsv(r.0, RegFile).Some?
      && ReadCsv(r.0, RegFile).value.columns == ReadCsv(files, RegFile).value.columns
      && ReadCsv(r.0, RegFile).value.rows ==
           ReadCsv(files, RegFile).value.rows + [RegistrationRow(form, s.mobile.value, now)]
    ensures forall other :: other != RegFile ==> ReadCsv(r.0, other) == ReadCsv(files, other)
  {
    if !s.loggedIn then (files, Stopped)
    else AppendRecord(files, RegFile, RegistrationRow(form, s.mobile.value, now))
  }

  method SubmitRegistration(session: Login.Session, fs: FileSystem, form: RegistrationForm, now: string)
    returns (outcome: WriteOutcome)
    requires session.Valid()
    modifies fs
    ensures (fs.files, outcome) == Submit(old(fs.files), session.State(), form, now)
  {
    if !session.loggedIn {
      return Stopped;
    }
    var row := RegistrationRow(form, session.mobile.value, now);
    outcome := AppendRecordToFile(fs, RegFile, row);
  }

  /**
   * "Submit" writes only for a logged-in session and only when registrations.csv
   * reads back with nine columns. It then adds exactly the registration row
   * after the earlier rows, unchanged.
   */
  lemma SubmitAppendsPendingRow(files: Files, s: Login.SessionState, form: RegistrationForm, now: string)
    requires s.loggedIn ==> s.mobile.Some?
    ensures var (files1, outcome) := Submit(files, s, form, now);
      && (outcome == Written <==>
            s.loggedIn && ReadCsv(files, RegFile).Some? && |ReadCsv(files, RegFile).value.columns| == |RegColumns|)
      && (outcome != Written ==> files1 == files)
      && (outcome == Written ==>
            && ReadCsv(files1, RegFile).Some?
            && var before := ReadCsv(files, RegFile).value;
            && var after := ReadCsv(files1, RegFile).value;
            && |after.rows| == |before.rows| + 1
            && after.rows[..|before.rows|] == before.rows
            && after.rows[|before.rows|] == RegistrationRow(form, s.mobile.value, now))
  {
  }

  /**
   * Along any run of the login buttons, a written registration whose Contact was
   * left pre-filled carries an allow-listed mobile.
   */
  lemma DefaultContactIsAllowListed(files: Files, allowed: set<string>, es: seq<Login.Event>, form: RegistrationForm, now: string)
    requires form.contact.None? && ReadCsv(files, RegFile).Some? && ReadCsv(files, RegFile).value.columns == RegColumns
    ensures var s := Login.Run(Login.Initial(), allowed, es);
      s.loggedIn ==> s.mobile.Some?
    ensures var s := Login.Run(Login.Initial(), allowed, es);
      var (files1, outcome) := Submit(files, s, form, now);
      outcome == Written ==>
        var t := ReadCsv(files1, RegFile).value;
        |t.rows| > 0 && Field(RegColumns, t.rows[|t.rows| - 1], "Contact") in allowed
  {
    Login.LoggedInMeansAllowed(allowed, es);
    var s := Login.Run(Login.Initial(), allowed, es);
    SubmitAppendsPendingRow(files, s, form, now);
  }

  /**
   * A press of "Submit" is a rerun of the whole script: the start-up loads run
   * first, so the read at the handler never fails. An unreadable
   * registrations.csv has been replaced by its header by then, and the new
   * registration becomes its only row.
   */
  lemma SubmitAfterStartup(files: Files, s: Login.SessionState, form: RegistrationForm, now: string)
    requires s.loggedIn ==> s.mobile.Some?
    ensures var (files1, outcome) := Submit(StartupLoads(files).3, s, form, now);
      && outcome != ReadFailed
      && (s.loggedIn && ReadCsv(files, RegFile).None? ==>
            && outcome == Written
            && ReadCsv(files1, RegFile) == Some(Frame(RegColumns, [RegistrationRow(form, s.mobile.value, now)])))
  {
    var files0 := StartupLoads(files).3;
    if s.loggedIn && ReadCsv(files, RegFile).None? {
      assert ReadCsv(files0, RegFile) == Some(EmptyTable(RegColumns));
    }
  }

  /** One run of the script ending in "Submit": the start-up loads, then the handler. */
  method SubmitRun(session: Login.Session, fs: FileSystem, form: RegistrationForm, now: string)
    returns (outcome: WriteOutcome)
    requires session.Valid()
    modifies fs
    ensures (fs.files, outcome) == Submit(StartupLoads(old(fs.files)).3, session.State(), form, now)
  {
    var _, _, _ := Startup(fs);
    outcome := SubmitRegistration(session, fs, form, now);
  }

  /** The admin gate: the password typed equals ADMIN_PASSWORD, "sgs2025". */
  predicate AdminAuthorized(password: string)
    ensures AdminAuthorized(password) <==> password == "sgs2025"
  {
    password == AdminPassword
  }

  /** The row the "Post Notice" button appends; `postedBy` is None when "Admin" was left in place. */
  function NoticeRow(title: string, message: string, postedBy: Option<string>, now: string): (row: seq<string>)
    ensures |row| == |NoticeColumns|
    ensures Field(NoticeColumns, row, "Timestamp") == now
    ensures Field(NoticeColumns, row, "Title") == title
    ensures Field(NoticeColumns, row, "Message") == message
    ensures Field(NoticeColumns, row, "PostedBy") == postedBy.GetOr("Admin")
  {
    NoticeColumnIndex(0);
    NoticeColumnIndex(1);
    NoticeColumnIndex(2);
    NoticeColumnIndex(3);
    assert NoticeColumns[0] == "Timestamp" && NoticeColumns[1] == "Title";
    assert NoticeColumns[2] == "Message" && NoticeColumns[3] == "PostedBy";
    [now, title, message, postedBy.GetOr("Admin")]
  }

  /**
   * "Login as Admin" then "Post Notice" on the admin tab: stopped without a
   * login, refused with a wrong password, otherwise the notice row is appended
   * to notices.csv and nothing else changes.
   */
  function Post(files: Files, s: Login.SessionState, password: string, title: string, message: string,
                postedBy: Option<string>, now: string): (r: (Files, WriteOutcome))
    ensures r.1 == Stopped <==> !s.loggedIn
    ensures r.1 == IncorrectPassword <==> s.loggedIn && !AdminAuthorized(password)
    ensures r.1 != Written ==> r.0 == files
    ensures r.1 == Written ==>
      && ReadCsv(files, NoticeFile).Some? && ReadCsv(r.0, NoticeFile).Some?
      && ReadCsv(r.0, NoticeFile).value.columns == ReadCsv(files, NoticeFile).value.columns
      && ReadCsv(r.0, NoticeFile).value.rows ==
           ReadCsv(files, NoticeFile).value.rows + [NoticeRow(title, message, postedBy, now)]
    ensures forall other :: other != NoticeFile ==> ReadCsv(r.0, other) == ReadCsv(files, other)
  {
    if !s.loggedIn then (files, Stopped)
    else if !AdminAuthorized(password) then (files, IncorrectPassword)
    else AppendRecord(files, NoticeFile, NoticeRow(title, message, postedBy, now))
  }

  method PostNotice(session: Login.Session, fs: FileSystem, password: string, title: string, message: string,
                    postedBy: Option<string>, now: string) returns (outcome: WriteOutcome)
    modifies fs
    ensures (fs.files, outcome) == Post(old(fs.files), session.State(), password, title, message, postedBy, now)
  {
    if !session.loggedIn {
      return Stopped;
    }
    if password != AdminPassword {
      return IncorrectPassword;
    }
    var row := NoticeRow(title, message, postedBy, now);
    outcome := AppendRecordToFile(fs, NoticeFile, row);
  }

  /** What the notices tab shows. */
  datatype NoticeBoard = NoNotices | Listing(notices: seq<seq<string>>) | Unreadable

  function BoardOf(read: Option<Table>): (b: NoticeBoard)
    ensures b == Unreadable <==> read.None?
    ensures b == NoNotices <==> read.Some? && IsEmpty(read.value)
    ensures b.Listing? ==> read.Some? && b.notices == read.value.rows && b.notices != []
  {
    match read
    case None => Unreadable
    case Some(t) => if IsEmpty(t) then NoNotices else Listing(t.rows)
  }

  /** The notices tab: read notices.csv and show "No notices" when it has no rows. */
  method ShowNotices(fs: FileSystem) returns (board: NoticeBoard)
    ensures board == BoardOf(ReadCsv(fs.files, NoticeFile))
  {
    var read := fs.Read(NoticeFile);
    if read.None? {
      board := Unreadable;
    } else if read.value.rows == [] || read.value.columns == [] {
      board := NoNotices;
    } else {
      board := Listing(read.value.rows);
    }
  }

  /** A notice file that load_csv had to create shows "No notices", not an error. */
  lemma FreshNoticeFileShowsNoNotices(files: Files)
    requires ReadCsv(files, NoticeFile).None?
    ensures BoardOf(ReadCsv(Load(files, NoticeFile, NoticeColumns).1, NoticeFile)) == NoNotices
  {
  }

  /**
   * After the start-up loads of a run the notices tab is never unreadable: it
   * shows the stored notices, or "No notices" where the file had to be recreated.
   */
  lemma NoticesAfterStartup(files: Files)
    ensures var board := BoardOf(ReadCsv(StartupLoads(files).3, NoticeFile));
      && board != Unreadable
      && (ReadCsv(files, NoticeFile).None? ==> board == NoNotices)
      && (ReadCsv(files, NoticeFile).Some? ==> board == BoardOf(ReadCsv(files, NoticeFile)))
  {
  }

  /**
   * A notice is written exactly when the session is logged in, the admin password
   * matches and notices.csv reads back with four columns; once written, the board
   * lists it last, after every earlier notice unchanged.
   */
  lemma PostedNoticeIsLatest(files: Files, s: Login.SessionState, password: string, title: string, message: string,
                             postedBy: Option<string>, now: string)
    ensures var (files1, outcome) := Post(files, s, password, title, message, postedBy, now);
      && (outcome == Written <==>
            && s.loggedIn && AdminAuthorized(password)
            && ReadCsv(files, NoticeFile).Some? && |ReadCsv(files, NoticeFile).value.columns| == |NoticeColumns|)
      && (outcome == Written ==>
        var before := ReadCsv(files, NoticeFile).value.rows;
        BoardOf(ReadCsv(files1, NoticeFile)) == Listing(before + [NoticeRow(title, message, postedBy, now)]))
  {
  }

  /**
   * Posting in a run of the script, after its start-up loads: the read at the
   * handler never fails, and a notices file that was unreadable has been
   * replaced by its header, so the new notice is the only one listed.
   */
  lemma PostAfterStartup(files: Files, s: Login.SessionState, password: string, title: string, message: string,
                         postedBy: Option<string>, now: string)
    ensures var (files1, outcome) := Post(StartupLoads(files).3, s, password, title, message, postedBy, now);
      && outcome != ReadFailed
      && (s.loggedIn && AdminAuthorized(password) && ReadCsv(files, NoticeFile).None? ==>
            && outcome == Written
            && BoardOf(ReadCsv(files1, NoticeFile)) == Listing([NoticeRow(title, message, postedBy, now)]))
  {
    var files0 := StartupLoads(files).3;
    if s.loggedIn && AdminAuthorized(password) && ReadCsv(files, NoticeFile).None? {
      assert ReadCsv(files0, NoticeFile) == Some(EmptyTable(NoticeColumns));
    }
  }

  /** One run of the script ending in "Post Notice": the start-up loads, then the handler. */
  method PostRun(session: Login.Session, fs: FileSystem, password: string, title: string, message: string,
                 postedBy: Option<string>, now: string) returns (outcome: WriteOutcome)
    modifies fs
    ensures (fs.files, outcome) == Post(StartupLoads(old(fs.files)).3, session.State(), password, title, message, postedBy, now)
  {
    var _, _, _ := Startup(fs);
    outcome := PostNotice(session, fs, password, title, message, postedBy, now);
  }

  /** A wrong password never changes any file. */
  lemma WrongPasswordWritesNothing(files: Files, s: Login.SessionState, password: string, title: string, message: string,
                                   postedBy: Option<string>, now: string)
    requires !AdminAuthorized(password)
    ensures Post(files, s, password, title, message, postedBy, now).0 == files
  {
  }
}
