/**
 * The repository: the database loaded into maps and sets, the list of
 * applications next to the lines of applications.csv, the login session, and
 * the two ways the applications change (append and save-grade).
 */
module Repo {
  import opened Wrappers
  import opened JavaText
  import opened Calendar
  import opened Entities
  import opened Csv
  import opened Loading
  import opened ApplicationsFile

  /** The files of the database directory; `None` is a file that does not exist. */
  datatype Database = Database(
    companies: TextFile,
    jobs: TextFile,
    candidates: TextFile,
    admins: TextFile,
    applications: TextFile)

  /** Everything the repository holds except the session. */
  datatype Snapshot = Snapshot(
    companies: map<string, Company>,
    jobs: map<string, Job>,
    candidates: map<string, Candidate>,
    candidateEmails: set<string>,
    candidateByEmailLower: map<string, Candidate>,
    adminEmails: set<string>,
    applications: seq<Application>,
    applicationsFile: seq<string>)

  /**
   * What the constructor builds, in its order: companies, jobs, candidates, admins
   * (when the file exists), the applications file, then the applications. The first
   * error stops the load.
   */
  function LoadDatabase(db: Database): Result<Snapshot, LoadError> {
    var companies :- CompaniesFrom(db.companies);
    var jobs :- JobsFrom(db.jobs);
    var cands :- CandidateRowsFrom(db.candidates);
    var file := EnsureApplicationsFile(db.applications);
    var apps :- ApplicationsFromLines(file);
    Success(Snapshot(
      companies, jobs, LastByKey(cands, CandidateKey),
      EmailSet(cands), LastByKey(cands, CandidateEmailKey),
      AdminEmailsFrom(db.admins), apps, file))
  }

  /** What always holds of a loaded repository. */
  predicate ValidSnapshot(s: Snapshot) {
    (forall k :: k in s.companies ==> s.companies[k].id == k) &&
    (forall k :: k in s.jobs ==> s.jobs[k].id == k && IsCleanId(k)) &&
    (forall k :: k in s.candidates ==> s.candidates[k].id == k && IsCleanId(k)) &&
    s.candidateEmails == s.candidateByEmailLower.Keys &&
    (forall e :: e in s.candidateEmails ==> Lower(e) == e) &&
    (forall e :: e in s.candidateByEmailLower ==> Lower(s.candidateByEmailLower[e].email) == e) &&
    (forall e :: e in s.adminEmails ==> e != "" && Lower(e) == e && HasCleanEdges(e)) &&
    s.applicationsFile != []
  }

  /** The list of applications is what loading the file gives. */
  predicate InStep(s: Snapshot) {
    ApplicationsFromLines(s.applicationsFile) == Success(s.applications)
  }

  /** The fields of a successful load, one by one. */
  lemma LoadDatabaseFields(db: Database)
    requires LoadDatabase(db).Success?
    ensures CompaniesFrom(db.companies).Success? && JobsFrom(db.jobs).Success? && CandidateRowsFrom(db.candidates).Success?
    ensures var s, cands := LoadDatabase(db).value, CandidateRowsFrom(db.candidates).value;
      s.companies == CompaniesFrom(db.companies).value && s.jobs == JobsFrom(db.jobs).value &&
      s.candidates == LastByKey(cands, CandidateKey) && s.candidateEmails == EmailSet(cands) &&
      s.candidateByEmailLower == LastByKey(cands, CandidateEmailKey) &&
      s.adminEmails == AdminEmailsFrom(db.admins) &&
      s.applicationsFile == EnsureApplicationsFile(db.applications) &&
      ApplicationsFromLines(s.applicationsFile) == Success(s.applications)
  {
  }

  /** Where a load stops: the first file that fails decides the error. */
  lemma LoadDatabaseSteps(db: Database)
    ensures CompaniesFrom(db.companies).Failure? ==> LoadDatabase(db) == Failure(CompaniesFrom(db.companies).error)
    ensures CompaniesFrom(db.companies).Success? && JobsFrom(db.jobs).Failure? ==>
      LoadDatabase(db) == Failure(JobsFrom(db.jobs).error)
    ensures CompaniesFrom(db.companies).Success? && JobsFrom(db.jobs).Success? && CandidateRowsFrom(db.candidates).Failure? ==>
      LoadDatabase(db) == Failure(CandidateRowsFrom(db.candidates).error)
    ensures var file := EnsureApplicationsFile(db.applications);
      CompaniesFrom(db.companies).Success? && JobsFrom(db.jobs).Success? && CandidateRowsFrom(db.candidates).Success? ==>
      (ApplicationsFromLines(file).Failure? ==> LoadDatabase(db) == Failure(ApplicationsFromLines(file).error)) &&
      (ApplicationsFromLines(file).Success? ==> LoadDatabase(db).Success?)
  {
  }

  lemma LoadedSnapshotIsValid(db: Database)
    requires LoadDatabase(db).Success?
    ensures ValidSnapshot(LoadDatabase(db).value) && InStep(LoadDatabase(db).value)
  {
    LoadDatabaseFields(db);
    var cands := CandidateRowsFrom(db.candidates).value;
    CompanyIdsAreKeys(db.companies);
    JobIdsAreCleanKeys(db.jobs);
    CandidateIdsAreCleanKeys(db.candidates);
    CandidateEmailIndex(cands);
    if db.admins.Some? {
      AdminEmailsAreNormalised(CsvRows(Body(db.admins.value, true)));
    }
  }

  /**
   * The load uses the corrected `EnsureApplicationsFile`. It differs from the source's
   * only on an existing empty applications.csv, which becomes the header alone where
   * the source leaves it empty; the applications loaded are none either way.
   */
  lemma CorrectedEnsureOnlyAddsHeader(db: Database)
    ensures db.applications != Some([]) ==>
      EnsureApplicationsFile(db.applications) == EnsureApplicationsFileAsWritten(db.applications)
    ensures db.applications == Some([]) ==>
      EnsureApplicationsFileAsWritten(db.applications) == [] && EnsureApplicationsFile(db.applications) == [Header] &&
      ApplicationsFromLines(EnsureApplicationsFileAsWritten(db.applications)) == Success([]) &&
      ApplicationsFromLines(EnsureApplicationsFile(db.applications)) == Success([])
    ensures LoadDatabase(db).Success? && db.applications == Some([]) ==> LoadDatabase(db).value.applications == []
  {
    assert [Header][1..] == [];
  }

  /** A student may log in with any email that equals a candidate row's email ignoring case. */
  lemma LoadedCandidateEmails(db: Database, email: string)
    requires LoadDatabase(db).Success?
    ensures Lower(email) in LoadDatabase(db).value.candidateEmails <==>
      exists c :: c in CandidateRowsFrom(db.candidates).value && EqualsIgnoreCase(c.email, email)
  {
    LoadDatabaseFields(db);
    var cands := CandidateRowsFrom(db.candidates).value;
    if Lower(email) in EmailSet(cands) {
      var c :| c in cands && Lower(c.email) == Lower(email);
      assert EqualsIgnoreCase(c.email, email);
    }
  }

  /** An admin may log in with any email that equals a trimmed, non-empty admins.csv entry ignoring case. */
  lemma LoadedAdminEmails(db: Database, email: string)
    requires LoadDatabase(db).Success?
    ensures Lower(email) in LoadDatabase(db).value.adminEmails <==>
      db.admins.Some? &&
      exists r :: r in CsvRows(Body(db.admins.value, true)) && |r| > 0 && Trim(r[0]) != "" && EqualsIgnoreCase(Trim(r[0]), email)
  {
    LoadDatabaseFields(db);
    if db.admins.Some? {
      AdminLookup(CsvRows(Body(db.admins.value, true)), email);
    }
  }

  lemma AdminLookup(rows: seq<seq<string>>, email: string)
    ensures Lower(email) in AdminEmailsOf(rows) <==>
      exists r :: r in rows && |r| > 0 && Trim(r[0]) != "" && EqualsIgnoreCase(Trim(r[0]), email)
  {
    if Lower(email) in AdminEmailsOf(rows) {
      var r :| r in rows && |r| > 0 && Trim(r[0]) != "" && Lower(email) == Lower(Trim(r[0]));
      assert EqualsIgnoreCase(Trim(r[0]), email);
    }
  }

  // ----- the in-memory grade update of saveGrade -----

  predicate IsFor(a: Application, jobId: string, candidateId: string) {
    a.jobId == jobId && a.candidateId == candidateId
  }

  /** `i` is the first application for the pair. */
  predicate IsFirstFor(apps: seq<Application>, jobId: string, candidateId: string, i: int) {
    0 <= i < |apps| && IsFor(apps[i], jobId, candidateId) &&
    forall k :: 0 <= k < i ==> !IsFor(apps[k], jobId, candidateId)
  }

  /** The list after the loop of `saveGrade`: the first application for the pair gets the grade. */
  function SetFirstGrade(apps: seq<Application>, jobId: string, candidateId: string, grade: string): (r: seq<Application>)
    ensures |r| == |apps|
  {
    if apps == [] then []
    else if IsFor(apps[0], jobId, candidateId) then [apps[0].(grade := grade)] + apps[1..]
    else [apps[0]] + SetFirstGrade(apps[1..], jobId, candidateId, grade)
  }

  /** Only the first application for the pair changes, and only in its grade. */
  lemma {:induction false} SetFirstGradeAtFirst(apps: seq<Application>, jobId: string, candidateId: string, grade: string, i: int)
    requires IsFirstFor(apps, jobId, candidateId, i)
    ensures SetFirstGrade(apps, jobId, candidateId, grade) == apps[i := apps[i].(grade := grade)]
  {
    if i > 0 {
      assert !IsFor(apps[0], jobId, candidateId);
      assert IsFirstFor(apps[1..], jobId, candidateId, i - 1) by {
        forall k | 0 <= k < i - 1
          ensures !IsFor(apps[1..][k], jobId, candidateId)
        {
          assert apps[1..][k] == apps[k + 1];
        }
      }
      SetFirstGradeAtFirst(apps[1..], jobId, candidateId, grade, i - 1);
      assert [apps[0]] + apps[1..][i - 1 := apps[i].(grade := grade)] == apps[i := apps[i].(grade := grade)];
    } else {
      assert [apps[0].(grade := grade)] + apps[1..] == apps[0 := apps[0].(grade := grade)];
    }
  }

  /** Without an application for the pair, nothing changes. */
  lemma {:induction false} SetFirstGradeMiss(apps: seq<Application>, jobId: string, candidateId: string, grade: string)
    requires forall k :: 0 <= k < |apps| ==> !IsFor(apps[k], jobId, candidateId)
    ensures SetFirstGrade(apps, jobId, candidateId, grade) == apps
  {
    if apps != [] {
      assert !IsFor(apps[0], jobId, candidateId);
      forall k | 0 <= k < |apps| - 1
        ensures !IsFor(apps[1..][k], jobId, candidateId)
      {
        assert apps[1..][k] == apps[k + 1];
      }
      SetFirstGradeMiss(apps[1..], jobId, candidateId, grade);
      assert [apps[0]] + apps[1..] == apps;
    }
  }

  /** Applications that were storable stay storable when the new grade is. */
  lemma SetFirstGradeKeepsStorable(apps: seq<Application>, jobId: string, candidateId: string, grade: string)
    requires forall a :: a in apps ==> Storable(a)
    requires CommaFree(grade) && EndsClean(grade) && NoLineBreak(grade)
    ensures forall a :: a in SetFirstGrade(apps, jobId, candidateId, grade) ==> Storable(a)
  {
    if exists i :: IsFirstFor(apps, jobId, candidateId, i) {
      var i :| IsFirstFor(apps, jobId, candidateId, i);
      SetFirstGradeAtFirst(apps, jobId, candidateId, grade, i);
      var r := SetFirstGrade(apps, jobId, candidateId, grade);
      forall a | a in r
        ensures Storable(a)
      {
        var k :| 0 <= k < |r| && r[k] == a;
        assert apps[k] in apps;
      }
    } else {
      forall k | 0 <= k < |apps|
        ensures !IsFor(apps[k], jobId, candidateId)
      {
        if IsFor(apps[k], jobId, candidateId) {
          FirstForExists(apps, jobId, candidateId, k);
        }
      }
      SetFirstGradeMiss(apps, jobId, candidateId, grade);
    }
  }

  /** Whenever some application is for the pair, a first one is. */
  lemma {:induction false} FirstForExists(apps: seq<Application>, jobId: string, candidateId: string, k: int)
    requires 0 <= k < |apps| && IsFor(apps[k], jobId, candidateId)
    ensures exists i :: IsFirstFor(apps, jobId, candidateId, i)
  {
    if !IsFirstFor(apps, jobId, candidateId, k) {
      var j :| 0 <= j < k && IsFor(apps[j], jobId, candidateId);
      FirstForExists(apps, jobId, candidateId, j);
    }
  }

  /**
   * With two applications for the same pair, grading the pair always grades the
   * earlier one: the later one cannot be graded.
   */
  lemma DuplicateGradesFirstOnly(apps: seq<Application>, i: int, j: int, grade: string)
    requires 0 <= i < j < |apps| && IsFor(apps[i], apps[j].jobId, apps[j].candidateId)
    ensures SetFirstGrade(apps, apps[j].jobId, apps[j].candidateId, grade)[j] == apps[j]
  {
    var jobId, candidateId := apps[j].jobId, apps[j].candidateId;
    FirstForExists(apps, jobId, candidateId, i);
    var f :| IsFirstFor(apps, jobId, candidateId, f);
    SetFirstGradeAtFirst(apps, jobId, candidateId, grade, f);
  }

  /** `grade == null ? "" : grade`. */
  function GradeOrEmpty(grade: Option<string>): string {
    if grade.None? then "" else grade.value
  }

  function EmptySnapshot(): Snapshot {
    Snapshot(map[], map[], map[], {}, map[], {}, [], [])
  }

  class Repository {
    var companies: map<string, Company>
    var jobs: map<string, Job>
    var candidates: map<string, Candidate>
    var candidateEmails: set<string>
    var candidateByEmailLower: map<string, Candidate>
    var adminEmails: set<string>
    var applications: seq<Application>
    var applicationsFile: seq<string>
    var session: Option<Session>

    function State(): Snapshot
      reads this
    {
      Snapshot(companies, jobs, candidates, candidateEmails, candidateByEmailLower, adminEmails, applications, applicationsFile)
    }

    predicate Valid()
      reads this
    {
      ValidSnapshot(State())
    }

    /** The list of applications is what reloading applications.csv would give. */
    predicate Consistent()
      reads this
    {
      InStep(State())
    }

    /** The fields as the object initialisers leave them, before any file is read. */
    constructor Empty()
      ensures State() == EmptySnapshot() && session == None
    {
      companies, jobs, candidates := map[], map[], map[];
      candidateEmails, candidateByEmailLower, adminEmails := {}, map[], {};
      applications, applicationsFile := [], [];
      session := None;
    }

    /** The constructor `Repository(dbDir)`: load everything or fail with the first error. */
    static method Open(db: Database) returns (res: Result<Repository, LoadError>)
      ensures res.Success? <==> LoadDatabase(db).Success?
      ensures res.Failure? ==> res.error == LoadDatabase(db).error
      ensures res.Success? ==> (fresh(res.value) && res.value.State() == LoadDatabase(db).value &&
        res.value.session == None && res.value.Valid() && res.value.Consistent())
    {
      var r := new Repository.Empty();
      LoadDatabaseSteps(db);
      var companiesLoaded := r.LoadCompanies(db.companies);
      if companiesLoaded.Failure? {
        return Failure(companiesLoaded.error);
      }
      var jobsLoaded := r.LoadJobs(db.jobs);
      if jobsLoaded.Failure? {
        return Failure(jobsLoaded.error);
      }
      var candidatesLoaded := r.LoadCandidates(db.candidates);
      if candidatesLoaded.Failure? {
        return Failure(candidatesLoaded.error);
      }
      if db.admins.Some? {
        r.LoadAdmins(db.admins.value);
      }
      assert r.adminEmails == AdminEmailsFrom(db.admins);
      r.applicationsFile := EnsureApplicationsFile(db.applications);
      var applicationsLoaded := r.LoadApplications();
      if applicationsLoaded.Failure? {
        assert LoadDatabase(db) == Failure(applicationsLoaded.error);
        return Failure(applicationsLoaded.error);
      }
      LoadDatabaseFields(db);
      LoadedSnapshotIsValid(db);
      return Success(r);
    }

    /** `loadCompanies`: one entry per row, a later row replacing an earlier one with the same id. */
    method LoadCompanies(file: TextFile) returns (res: Result<(), LoadError>)
      requires companies == map[]
      modifies this
      ensures res.Success? <==> CompaniesFrom(file).Success?
      ensures res.Failure? ==> res.error == CompaniesFrom(file).error
      ensures res.Success? ==> State() == old(State()).(companies := CompaniesFrom(file).value)
      ensures session == old(session)
    {
      var read := ReadCsv(file, "companies.csv", true);
      if read.Failure? {
        return Failure(read.error);
      }
      var rows := read.value;
      ghost var cs: seq<Company> := [];
      var i := 0;
      while i < |rows|
        invariant 0 <= i <= |rows|
        invariant DecodeAll(rows[..i], DecodeCompany) == Success(cs)
        invariant State() == old(State()).(companies := LastByKey(cs, CompanyKey))
        invariant session == old(session)
      {
        var d := DecodeCompany(rows[i]);
        DecodeAllStep(rows, i, DecodeCompany);
        if d.Failure? {
          DecodeAllFailsOnPrefix(rows, i + 1, DecodeCompany);
          return Failure(d.error);
        }
        LastByKeySnoc(cs, d.value, CompanyKey);
        companies := companies[d.value.id := d.value];
        cs := cs + [d.value];
        i := i + 1;
      }
      assert rows[..i] == rows;
      return Success(());
    }

    /** `loadJobs`. */
    method LoadJobs(file: TextFile) returns (res: Result<(), LoadError>)
      requires jobs == map[]
      modifies this
      ensures res.Success? <==> JobsFrom(file).Success?
      ensures res.Failure? ==> res.error == JobsFrom(file).error
      ensures res.Success? ==> State() == old(State()).(jobs := JobsFrom(file).value)
      ensures session == old(session)
    {
      var read := ReadCsv(file, "jobs.csv", true);
      if read.Failure? {
        return Failure(read.error);
      }
      var rows := read.value;
      ghost var js: seq<Job> := [];
      var i := 0;
      while i < |rows|
        invariant 0 <= i <= |rows|
        invariant DecodeAll(rows[..i], DecodeJob) == Success(js)
        invariant State() == old(State()).(jobs := LastByKey(js, JobKey))
        invariant session == old(session)
      {
        var d := DecodeJob(rows[i]);
        DecodeAllStep(rows, i, DecodeJob);
        if d.Failure? {
          DecodeAllFailsOnPrefix(rows, i + 1, DecodeJob);
          return Failure(d.error);
        }
        LastByKeySnoc(js, d.value, JobKey);
        jobs := jobs[d.value.id := d.value];
        js := js + [d.value];
        i := i + 1;
      }
      assert rows[..i] == rows;
      return Success(());
    }

    /** `loadCandidates`: by id, and by lower-cased email in both the email set and the email index. */
    method LoadCandidates(file: TextFile) returns (res: Result<(), LoadError>)
      requires candidates == map[] && candidateEmails == {} && candidateByEmailLower == map[]
      modifies this
      ensures res.Success? <==> CandidateRowsFrom(file).Success?
      ensures res.Failure? ==> res.error == CandidateRowsFrom(file).error
      ensures res.Success? ==>
        var cs := CandidateRowsFrom(file).value;
        State() == old(State()).(candidates := LastByKey(cs, CandidateKey), candidateEmails := EmailSet(cs),
                                 candidateByEmailLower := LastByKey(cs, CandidateEmailKey))
      ensures session == old(session)
    {
      var read := ReadCsv(file, "candidates.csv", true);
      if read.Failure? {
        return Failure(read.error);
      }
      var rows := read.value;
      assert CandidateRowsFrom(file) == DecodeAll(rows, DecodeCandidate);
      ghost var cs: seq<Candidate> := [];
      var i := 0;
      while i < |rows|
        invariant 0 <= i <= |rows|
        invariant DecodeAll(rows[..i], DecodeCandidate) == Success(cs)
        invariant State() == old(State()).(candidates := LastByKey(cs, CandidateKey), candidateEmails := EmailSet(cs),
                                 candidateByEmailLower := LastByKey(cs, CandidateEmailKey))
        invariant session == old(session)
      {
        var d := DecodeCandidate(rows[i]);
        DecodeAllStep(rows, i, DecodeCandidate);
        if d.Failure? {
          DecodeAllFailsOnPrefix(rows, i + 1, DecodeCandidate);
          return Failure(d.error);
        }
        var c := d.value;
        LastByKeySnoc(cs, c, CandidateKey);
        LastByKeySnoc(cs, c, CandidateEmailKey);
        EmailSetSnoc(cs, c);
        AddCandidate(c);
        cs := cs + [c];
        i := i + 1;
      }
      assert rows[..i] == rows;
      return Success(());
    }

    /** The body of the `loadCandidates` loop: index one candidate by id and by lower-cased email. */
    method AddCandidate(c: Candidate)
      modifies this
      ensures State() == old(State()).(candidates := old(candidates)[c.id := c],
        candidateEmails := old(candidateEmails) + {Lower(c.email)},
        candidateByEmailLower := old(candidateByEmailLower)[Lower(c.email) := c])
      ensures session == old(session)
    {
      candidates := candidates[c.id := c];
      var lower := Lower(c.email);
      candidateEmails := candidateEmails + {lower};
      candidateByEmailLower := candidateByEmailLower[lower := c];
    }

    /** `loadAdmins`, called only when admins.csv exists. */
    method LoadAdmins(lines: seq<string>)
      requires adminEmails == {}
      modifies this
      ensures State() == old(State()).(adminEmails := AdminEmailsFrom(Some(lines)))
      ensures session == old(session)
    {
      var read := ReadCsv(Some(lines), "admins.csv", true);
      var rows := read.value;
      var i := 0;
      while i < |rows|
        invariant 0 <= i <= |rows|
        invariant State() == old(State()).(adminEmails := AdminEmailsOf(rows[..i]))
        invariant session == old(session)
      {
        var r := rows[i];
        AdminEmailsStep(rows, i);
        if |r| > 0 {
          var email := Trim(r[0]);
          if email != "" {
            adminEmails := adminEmails + {Lower(email)};
          }
        }
        i := i + 1;
      }
      assert rows[..i] == rows;
    }

    /** `loadApplications`: reads the header test once, then one application per non-blank line. */
    method LoadApplications() returns (res: Result<(), LoadError>)
      requires applications == []
      modifies this
      ensures res.Success? <==> ApplicationsFromLines(applicationsFile).Success?
      ensures res.Failure? ==> res.error == ApplicationsFromLines(applicationsFile).error
      ensures res.Success? ==> State() == old(State()).(applications := ApplicationsFromLines(applicationsFile).value)
      ensures applicationsFile == old(applicationsFile) && session == old(session)
    {
      var lines := applicationsFile;
      if |lines| == 0 {
        return Success(());
      }
      var hasGrade := Contains(Lower(lines[0]), "grade");
      ghost var decode := ApplicationDecoder(hasGrade);
      assert decode == ApplicationDecoder(HeaderHasGrade(lines));
      ghost var done: seq<seq<string>> := [];
      var i := 1;
      while i < |lines|
        invariant 1 <= i <= |lines|
        invariant CsvRows(lines[1..i]) == done
        invariant DecodeAll(done, decode) == Success(applications)
        invariant State() == old(State()).(applications := applications)
        invariant session == old(session)
      {
        CsvRowsStep(lines, 1, i);
        var line := Trim(lines[i]);
        if line != [] {
          var parts := Split(line);
          var d := DecodeApplication(parts, hasGrade);
          assert decode(parts) == d;
          DecodeAllSnoc(done, parts, decode);
          if d.Failure? {
            ApplicationsFailAt(lines, i, decode);
            return Failure(d.error);
          }
          applications := applications + [d.value];
          done := done + [parts];
        }
        i := i + 1;
      }
      assert lines[1..i] == lines[1..];
      return Success(());
    }

    // ----- queries -----

    /** `findCompany`: `None` where Java returns null. */
    function FindCompany(id: string): (r: Option<Company>)
      reads this
      ensures r.Some? <==> id in companies
      ensures r.Some? ==> r.value == companies[id] && (Valid() ==> r.value.id == id)
    {
      if id in companies then Some(companies[id]) else None
    }

    /** `findJob`. */
    function FindJob(id: string): (r: Option<Job>)
      reads this
      ensures r.Some? <==> id in jobs
      ensures r.Some? ==> r.value == jobs[id] && (Valid() ==> r.value.id == id && IsCleanId(id))
    {
      if id in jobs then Some(jobs[id]) else None
    }

    /** `findCandidate`. */
    function FindCandidate(id: string): (r: Option<Candidate>)
      reads this
      ensures r.Some? <==> id in candidates
      ensures r.Some? ==> r.value == candidates[id] && (Valid() ==> r.value.id == id && IsCleanId(id))
    {
      if id in candidates then Some(candidates[id]) else None
    }

    /** `findCandidateByEmailLower`: the candidate whose email, lower-cased, is the key. */
    function FindCandidateByEmailLower(emailLower: string): (r: Option<Candidate>)
      reads this
      ensures r.Some? <==> emailLower in candidateByEmailLower
      ensures r.Some? && Valid() ==> Lower(r.value.email) == emailLower && emailLower in candidateEmails
    {
      if emailLower in candidateByEmailLower then Some(candidateByEmailLower[emailLower]) else None
    }

    /** `getAllOpenJobs`: every open job once, in whatever order the map gives them. */
    method GetAllOpenJobs() returns (list: seq<Job>)
      requires Valid()
      ensures forall j :: j in list ==> j.open && j.id in jobs && jobs[j.id] == j
      ensures forall k :: k in jobs && jobs[k].open ==> jobs[k] in list
      ensures forall a, b :: 0 <= a < b < |list| ==> list[a].id != list[b].id
    {
      list := [];
      var all := jobs;
      assert forall k :: k in all ==> all[k].id == k;
      var todo := all.Keys;
      while todo != {}
        invariant todo <= all.Keys
        invariant forall j :: j in list ==> j.open && j.id in all && all[j.id] == j && j.id !in todo
        invariant forall k :: k in all && k !in todo && all[k].open ==> all[k] in list
        invariant forall a, b :: 0 <= a < b < |list| ==> list[a].id != list[b].id
        decreases |todo|
      {
        var k :| k in todo;
        if all[k].open {
          list := list + [all[k]];
        }
        todo := todo - {k};
      }
    }

    /** `getAllCandidates`: every candidate once, in whatever order the map gives them. */
    method GetAllCandidates() returns (list: seq<Candidate>)
      requires Valid()
      ensures forall c :: c in list ==> c.id in candidates && candidates[c.id] == c
      ensures forall k :: k in candidates ==> candidates[k] in list
      ensures forall a, b :: 0 <= a < b < |list| ==> list[a].id != list[b].id
    {
      list := [];
      var all := candidates;
      assert forall k :: k in all ==> all[k].id == k;
      var todo := all.Keys;
      while todo != {}
        invariant todo <= all.Keys
        invariant forall c :: c in list ==> c.id in all && all[c.id] == c && c.id !in todo
        invariant forall k :: k in all && k !in todo ==> all[k] in list
        invariant forall a, b :: 0 <= a < b < |list| ==> list[a].id != list[b].id
        decreases |todo|
      {
        var k :| k in todo;
        list := list + [all[k]];
        todo := todo - {k};
      }
    }

    /** `isCandidateEmail`: false for null, otherwise a case-insensitive lookup. */
    function IsCandidateEmail(email: Option<string>): (r: bool)
      reads this
      ensures email.None? ==> !r
      ensures Valid() ==> (r <==> email.Some? && exists e :: e in candidateByEmailLower && EqualsIgnoreCase(e, email.value))
    {
      if email.None? then false
      else EmailLookupIgnoresCase(candidateEmails, email.value); Lower(email.value) in candidateEmails
    }

    /** `isAdminEmail`: false for null, otherwise a case-insensitive lookup. */
    function IsAdminEmail(email: Option<string>): (r: bool)
      reads this
      ensures email.None? ==> !r
      ensures Valid() ==> (r <==> email.Some? && exists e :: e in adminEmails && EqualsIgnoreCase(e, email.value))
    {
      if email.None? then false
      else EmailLookupIgnoresCase(adminEmails, email.value); Lower(email.value) in adminEmails
    }

    /** `getAllApplications`: a copy of the list, in order. */
    method GetAllApplications() returns (list: seq<Application>)
      ensures list == applications
    {
      list := applications;
    }

    /** `getCurrentSession`: `None` before anyone logs in. */
    function CurrentSession(): Option<Session>
      reads this
    {
      session
    }

    /** `setCurrentUser`. */
    method SetCurrentUser(email: string, role: string)
      modifies this
      ensures session == Some(Session(email, role))
      ensures State() == old(State())
    {
      session := Some(Session(email, role));
    }

    // ----- changing the applications -----

    /** `appendApplication`: one line more in the file and one application more in the list, duplicates or not. */
    method AppendApplication(job: Job, candidate: Candidate, when: Timestamp)
      modifies this
      ensures State() == old(State()).(
        applications := old(applications) + [NewApplication(job.id, candidate.id, Some(when), Some(""))],
        applicationsFile := old(applicationsFile) + [AppendedLine(old(applicationsFile), job.id, candidate.id, when)])
      ensures session == old(session)
      ensures old(Valid()) ==> Valid()
      ensures old(Valid() && Consistent()) && IsCleanId(job.id) && CommaFree(candidate.id) ==> Consistent()
    {
      ghost var wasInStep := Valid() && Consistent();
      var headerHasGrade := HeaderHasGrade(applicationsFile);
      var line := job.id + "," + candidate.id + "," + RenderDateTime(when) + (if headerHasGrade then "," else "");
      if wasInStep && IsCleanId(job.id) && CommaFree(candidate.id) {
        ReloadAfterAppend(applicationsFile, applications, job.id, candidate.id, when);
      }
      applicationsFile := applicationsFile + [line];
      applications := applications + [NewApplication(job.id, candidate.id, Some(when), Some(""))];
    }

    /**
     * `saveGrade`: the first application for the pair gets the grade (null becomes ""),
     * then the whole file is rewritten, even when no application matched.
     */
    method SaveGrade(jobId: string, candidateId: string, grade: Option<string>)
      modifies this
      ensures applications == SetFirstGrade(old(applications), jobId, candidateId, GradeOrEmpty(grade))
      ensures State() == old(State()).(applications := applications, applicationsFile := RewrittenFile(applications))
      ensures session == old(session)
      ensures old(Valid()) ==> Valid()
      ensures (forall a :: a in applications ==> Storable(a)) ==> Consistent()
    {
      var g := if grade.None? then "" else grade.value;
      var i := 0;
      while i < |applications|
        invariant 0 <= i <= |applications|
        invariant State() == old(State()) && session == old(session)
        invariant forall k :: 0 <= k < i ==> !IsFor(applications[k], jobId, candidateId)
      {
        if applications[i].jobId == jobId && applications[i].candidateId == candidateId {
          SetFirstGradeAtFirst(applications, jobId, candidateId, g, i);
          applications := applications[i := applications[i].(grade := g)];
          break;
        }
        i := i + 1;
      }
      if i == |applications| {
        SetFirstGradeMiss(applications, jobId, candidateId, g);
      }
      WriteApplicationsToFile();
      if forall a :: a in applications ==> Storable(a) {
        ReloadRewritten(applications);
      }
    }

    /** `writeApplicationsToFile`: the fixed header, then one line per application. */
    method WriteApplicationsToFile()
      modifies this
      ensures State() == old(State()).(applicationsFile := RewrittenFile(applications))
      ensures session == old(session)
    {
      var apps := applications;
      var out := [Header];
      var i := 0;
      while i < |apps|
        invariant 0 <= i <= |apps|
        invariant out == [Header] + RenderedLines(apps[..i])
        invariant State() == old(State()) && session == old(session)
      {
        var a := apps[i];
        var ts := if a.appliedAt.None? then "" else RenderDateTime(a.appliedAt.value);
        var g := a.grade;
        RenderApplicationIsCommaSeparated(a);
        RenderedLinesStep(apps, i);
        out := out + [a.jobId + "," + a.candidateId + "," + ts + "," + g];
        i := i + 1;
      }
      assert apps[..i] == apps;
      applicationsFile := out;
    }
  }

  /** A line that fails to decode makes the whole applications file fail with its error. */
  lemma ApplicationsFailAt(lines: seq<string>, i: nat, decode: seq<string> -> Result<Application, LoadError>)
    requires 1 <= i < |lines| && DecodeAll(CsvRows(lines[1..i + 1]), decode).Failure?
    ensures DecodeAll(CsvRows(lines[1..]), decode) == Failure(DecodeAll(CsvRows(lines[1..i + 1]), decode).error)
  {
    assert lines[1..i + 1] + lines[i + 1..] == lines[1..];
    CsvRowsOfConcat(lines[1..i + 1], lines[i + 1..]);
    var rows := CsvRows(lines[1..]);
    var k := |CsvRows(lines[1..i + 1])|;
    assert rows[..k] == CsvRows(lines[1..i + 1]);
    DecodeAllFailsOnPrefix(rows, k, decode);
  }

  /** Looking up the lower-cased input in a set of lower-cased emails is a case-insensitive match. */
  lemma EmailLookupIgnoresCase(emails: set<string>, email: string)
    ensures (forall e :: e in emails ==> Lower(e) == e) ==>
      (Lower(email) in emails <==> exists e :: e in emails && EqualsIgnoreCase(e, email))
  {
    if Lower(email) in emails {
      LowerIsIdempotent(email);
      assert EqualsIgnoreCase(Lower(email), email);
    }
  }
}
