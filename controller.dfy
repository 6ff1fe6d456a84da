/**
 * The decisions of the job-fair controller, without the dialogs and page changes:
 * login, clicking apply on a job, confirming an application, saving a grade, and
 * the filtered, sorted job list.
 */
module Controller {
  import opened Wrappers
  import opened JavaText
  import opened Calendar
  import opened Entities
  import opened Policies
  import opened Email
  import opened Csv
  import opened Loading
  import opened ApplicationsFile
  import opened Repo
  import opened Sorting
  import opened AdminView

  // ----- login -----

  datatype LoginOutcome =
    | LoggedIn(session: Session)
    | InvalidEmailFormat   // "Invalid email format."
    | NotACandidate        // "This email is not found in candidates."
    | NotAnAdmin           // "This email is not authorized as admin."
    | UnknownRole          // "Unknown role."

  /** The login handler's checks, in order: email format, then the role's email list. */
  function LoginDecision(repo: Repository, email: string, role: string): (r: LoginOutcome)
    reads repo
    ensures !IsValidEmail(Some(email)) ==> r == InvalidEmailFormat
    ensures r.LoggedIn? ==> r.session == Session(Lower(email), Lower(role))
    ensures r.LoggedIn? ==> EqualsIgnoreCase(role, "student") || EqualsIgnoreCase(role, "admin")
    ensures IsValidEmail(Some(email)) && !EqualsIgnoreCase(role, "student") && !EqualsIgnoreCase(role, "admin") ==> r == UnknownRole
  {
    if !IsValidEmail(Some(email)) then InvalidEmailFormat
    else
      var emailLower := Lower(email);
      if EqualsIgnoreCase("student", role) then
        if !repo.IsCandidateEmail(Some(emailLower)) then NotACandidate
        else LoggedIn(Session(emailLower, Lower(role)))
      else if EqualsIgnoreCase("admin", role) then
        if !repo.IsAdminEmail(Some(emailLower)) then NotAnAdmin
        else LoggedIn(Session(emailLower, Lower(role)))
      else UnknownRole
  }

  /**
   * A login succeeds exactly when the email is well formed and some candidate
   * email (for a student) or admin email (for an admin) equals it ignoring case.
   */
  lemma LoginSucceedsExactly(repo: Repository, email: string, role: string)
    requires repo.Valid()
    ensures LoginDecision(repo, email, role).LoggedIn? <==>
      IsValidEmail(Some(email)) &&
      ((EqualsIgnoreCase(role, "student") && exists e :: e in repo.candidateEmails && EqualsIgnoreCase(e, email)) ||
       (!EqualsIgnoreCase(role, "student") && EqualsIgnoreCase(role, "admin") &&
        exists e :: e in repo.adminEmails && EqualsIgnoreCase(e, email)))
  {
    LowerIsIdempotent(email);
    forall e | e in repo.candidateEmails
      ensures EqualsIgnoreCase(e, Lower(email)) <==> EqualsIgnoreCase(e, email)
    {
    }
    forall e | e in repo.adminEmails
      ensures EqualsIgnoreCase(e, Lower(email)) <==> EqualsIgnoreCase(e, email)
    {
    }
  }

  /** The login handler: the session changes only on success. */
  method Login(repo: Repository, email: string, role: string) returns (outcome: LoginOutcome)
    modifies repo
    ensures outcome == old(LoginDecision(repo, email, role))
    ensures repo.State() == old(repo.State())
    ensures repo.session == (if outcome.LoggedIn? then Some(outcome.session) else old(repo.session))
  {
    outcome := LoginDecision(repo, email, role);
    if outcome.LoggedIn? {
      repo.SetCurrentUser(outcome.session.email, outcome.session.role);
    }
  }

  // ----- clicking apply on a job -----

  datatype ApplyClickOutcome =
    | ShowApplyForm(job: Job, candidate: Candidate)
    | JobNotFound           // "Job not found."
    | AdminsCannotApply     // "Admins cannot apply.", also without a session
    | EmailNotMapped        // "Your email is not mapped to any candidate."

  /** The apply-click handler: the job must exist, the session must be a student's, and its email a candidate's. */
  function ApplyClick(repo: Repository, jobId: string): (r: ApplyClickOutcome)
    reads repo
    ensures r.ShowApplyForm? <==>
      jobId in repo.jobs && repo.session.Some? && EqualsIgnoreCase(repo.session.value.role, "student") &&
      repo.session.value.email in repo.candidateByEmailLower
    ensures r.ShowApplyForm? ==> r.job == repo.jobs[jobId] && r.candidate == repo.candidateByEmailLower[repo.session.value.email]
    ensures r.ShowApplyForm? && repo.Valid() ==> Lower(r.candidate.email) == repo.session.value.email
    ensures jobId in repo.jobs && repo.session.None? ==> r == AdminsCannotApply
  {
    match repo.FindJob(jobId)
    case None => JobNotFound
    case Some(job) =>
      var s := repo.CurrentSession();
      if s.Some? && EqualsIgnoreCase("student", s.value.role) then
        match repo.FindCandidateByEmailLower(s.value.email)
        case None => EmailNotMapped
        case Some(me) => ShowApplyForm(job, me)
      else AdminsCannotApply
  }

  /** After a student logs in, clicking apply on any listed job opens the form for that student. */
  lemma StudentLoginLetsApply(repo: Repository, email: string, jobId: string)
    requires repo.Valid() && jobId in repo.jobs
    requires LoginDecision(repo, email, "student").LoggedIn?
    ensures var s := LoginDecision(repo, email, "student").session;
      s.email in repo.candidateByEmailLower && EqualsIgnoreCase(s.role, "student")
  {
    LowerIsIdempotent(email);
    LowerIsIdempotent("student");
  }

  // ----- confirming an application -----

  datatype ConfirmOutcome =
    | Append(job: Job, candidate: Candidate)
    | InvalidData               // "Invalid data."
    | CoopOnlyForStudying       // "CO-OP positions are only for STUDYING candidates."
    | RegularOnlyForGraduated   // "REGULAR positions are only for GRADUATED candidates."

  /** The confirm-apply checks: both records must exist, then the policy must allow it. */
  function ConfirmDecision(repo: Repository, jobId: string, candidateId: string): (r: ConfirmOutcome)
    reads repo
    ensures r.Append? <==> (jobId in repo.jobs && candidateId in repo.candidates &&
      CanApply(repo.candidates[candidateId], repo.jobs[jobId]))
    ensures r.Append? ==> r.job == repo.jobs[jobId] && r.candidate == repo.candidates[candidateId]
    ensures r == InvalidData <==> jobId !in repo.jobs || candidateId !in repo.candidates
    ensures r == CoopOnlyForStudying ==> repo.jobs[jobId].jobType == Coop && repo.candidates[candidateId].status == Graduated
    ensures r == RegularOnlyForGraduated ==> repo.jobs[jobId].jobType == Regular && repo.candidates[candidateId].status == Studying
  {
    var job := repo.FindJob(jobId);
    var cand := repo.FindCandidate(candidateId);
    if job.None? || cand.None? then InvalidData
    else if !CanApply(cand.value, job.value) then
      if job.value.jobType == Coop then CoopOnlyForStudying else RegularOnlyForGraduated
    else Append(job.value, cand.value)
  }

  /**
   * The confirm-apply handler: at most one application is appended, and only
   * when the checks pass; `now` is the clock reading `LocalDateTime.now()`.
   */
  method ConfirmApply(repo: Repository, jobId: string, candidateId: string, now: Timestamp) returns (outcome: ConfirmOutcome)
    modifies repo
    ensures outcome == old(ConfirmDecision(repo, jobId, candidateId))
    ensures !outcome.Append? ==> repo.State() == old(repo.State())
    ensures outcome.Append? ==>
      var jid, cid := outcome.job.id, outcome.candidate.id;
      repo.State() == old(repo.State()).(
        applications := old(repo.applications) + [NewApplication(jid, cid, Some(now), Some(""))],
        applicationsFile := old(repo.applicationsFile) + [AppendedLine(old(repo.applicationsFile), jid, cid, now)]) &&
      (old(repo.Valid()) ==> jid == jobId && cid == candidateId)
    ensures repo.session == old(repo.session)
    ensures old(repo.Valid()) ==> repo.Valid()
    ensures old(repo.Valid() && repo.Consistent()) ==> repo.Consistent()
  {
    outcome := ConfirmDecision(repo, jobId, candidateId);
    if outcome.Append? {
      assert repo.Valid() ==> (outcome.job.id == jobId && IsCleanId(jobId) &&
        outcome.candidate.id == candidateId && IsCleanId(candidateId));
      repo.AppendApplication(outcome.job, outcome.candidate, now);
    }
  }

  // ----- saving a grade -----

  /** `grade.matches("^$|^[ABCDF]$")`. */
  predicate IsGradeText(grade: string) {
    |grade| == 0 || (|grade| == 1 && grade[0] in "ABCDF")
  }

  /** The accepted grades are exactly the admin table's choices. */
  lemma GradeTextIsAChoice(grade: string)
    ensures IsGradeText(grade) <==> grade in GradeChoices
  {
    if |grade| == 1 {
      assert grade == [grade[0]];
    }
  }

  /** An accepted grade can be stored in the file. */
  lemma GradeTextIsStorable(grade: string)
    requires IsGradeText(grade)
    ensures CommaFree(grade) && EndsClean(grade) && NoLineBreak(grade)
  {
  }

  /**
   * What the save button hands over passes the grade check exactly when the cell is
   * null or holds one of the choices once trimmed, so a stored " B " is saved as "B".
   */
  lemma SaveButtonFeedsGradeCheck(selectedRow: int, cell: Option<string>)
    requires selectedRow >= 0
    ensures var click := SaveButton(selectedRow, cell);
      click.Save? && click.row == selectedRow &&
      (IsGradeText(click.grade) <==> cell.None? || Trim(cell.value) in GradeChoices)
  {
    var click := SaveButton(selectedRow, cell);
    GradeTextIsAChoice(click.grade);
  }

  /**
   * The save-grade handler: the ids come from the selected row's cells; a grade
   * other than "" or one of A, B, C, D, F changes nothing; otherwise the grade is
   * saved and the table refilled from the repository.
   */
  method SaveGradeClick(repo: Repository, table: AdminTable, rowIndex: int, grade: string) returns (saved: bool)
    requires 0 <= rowIndex < |table.rows|
    modifies repo, table
    ensures saved <==> IsGradeText(grade)
    ensures !saved ==> repo.State() == old(repo.State()) && table.rows == old(table.rows)
    ensures saved ==>
      repo.applications == SetFirstGrade(old(repo.applications), old(table.JobIdAtRow(rowIndex)), old(table.CandidateIdAtRow(rowIndex)), grade) &&
      repo.State() == old(repo.State()).(applications := repo.applications, applicationsFile := RewrittenFile(repo.applications)) &&
      table.rows == DisplayRows(repo, repo.applications)
    ensures repo.session == old(repo.session)
    ensures old(repo.Valid()) ==> repo.Valid()
    ensures saved && old(forall a :: a in repo.applications ==> Storable(a)) ==> repo.Consistent()
  {
    var candidateId := table.CandidateIdAtRow(rowIndex);
    var jobId := table.JobIdAtRow(rowIndex);
    ghost var before := repo.applications;
    assert jobId == old(table.JobIdAtRow(rowIndex)) && candidateId == old(table.CandidateIdAtRow(rowIndex));
    if !IsGradeText(grade) {
      return false;
    }
    GradeTextIsStorable(grade);
    if forall a :: a in repo.applications ==> Storable(a) {
      SetFirstGradeKeepsStorable(repo.applications, jobId, candidateId, grade);
    }
    repo.SaveGrade(jobId, candidateId, Some(grade));
    assert repo.applications == SetFirstGrade(before, jobId, candidateId, grade);
    var apps := repo.GetAllApplications();
    table.SetData(apps, repo);
    return true;
  }

  /**
   * Saving on a row of a table filled from the applications grades that row's
   * application when its job and candidate are known, their ids have no
   * parentheses, and no earlier application is for the same pair.
   */
  lemma SavedRowIsGraded(repo: Repository, apps: seq<Application>, i: int, grade: string)
    requires 0 <= i < |apps|
    requires var a := apps[i];
      a.candidateId in repo.candidates && '(' !in a.candidateId && ')' !in a.candidateId &&
      a.jobId in repo.jobs && '(' !in a.jobId && ')' !in a.jobId
    requires forall k :: 0 <= k < i ==> !IsFor(apps[k], apps[i].jobId, apps[i].candidateId)
    ensures var row := DisplayRows(repo, apps)[i];
      SetFirstGrade(apps, ExtractId(row.job), ExtractId(row.candidate), grade) == apps[i := apps[i].(grade := grade)]
  {
    RowReadsBackIds(repo, apps, i);
    SetFirstGradeAtFirst(apps, apps[i].jobId, apps[i].candidateId, grade, i);
  }

  // ----- the job list -----

  /** A deadline strictly before today; a deadline of today is still open. */
  predicate Expired(j: Job, today: Date) {
    j.deadline.Some? && Before(j.deadline.value, today)
  }

  /** `removeIf(expired)`: the jobs that are not expired, in order. */
  function Unexpired(jobs: seq<Job>, today: Date): seq<Job> {
    if jobs == [] then []
    else Unexpired(jobs[..|jobs| - 1], today) + (if Expired(jobs[|jobs| - 1], today) then [] else [jobs[|jobs| - 1]])
  }

  /** `removeIf` keeps exactly the jobs that are not expired. */
  lemma {:induction false} UnexpiredKeepsExactly(jobs: seq<Job>, today: Date)
    ensures forall j :: j in Unexpired(jobs, today) <==> j in jobs && !Expired(j, today)
    ensures |Unexpired(jobs, today)| <= |jobs|
  {
    if jobs != [] {
      var init := jobs[..|jobs| - 1];
      UnexpiredKeepsExactly(init, today);
      assert jobs == init + [jobs[|jobs| - 1]];
    }
  }

  /** `removeIf` keeps the order of what it keeps: a filter keeps distinct ids distinct. */
  lemma {:induction false} UnexpiredKeepsIdsDistinct(jobs: seq<Job>, today: Date)
    requires forall a, b :: 0 <= a < b < |jobs| ==> jobs[a].id != jobs[b].id
    ensures var kept := Unexpired(jobs, today); forall a, b :: 0 <= a < b < |kept| ==> kept[a].id != kept[b].id
  {
    if jobs != [] {
      var init, last := jobs[..|jobs| - 1], jobs[|jobs| - 1];
      UnexpiredKeepsIdsDistinct(init, today);
      UnexpiredKeepsExactly(init, today);
      var kept := Unexpired(init, today);
      forall a | 0 <= a < |kept|
        ensures kept[a].id != last.id
      {
        assert kept[a] in kept;
        var k :| 0 <= k < |init| && init[k] == kept[a];
      }
    }
  }

  lemma DeadlineTodayIsKept(j: Job, today: Date)
    requires j.deadline == Some(today)
    ensures !Expired(j, today)
  {
  }

  /** The list `removeIf` leaves, changed step by step like the source's list. */
  method RemoveExpired(jobs: seq<Job>, today: Date) returns (kept: seq<Job>)
    ensures kept == Unexpired(jobs, today)
  {
    kept := [];
    var i := 0;
    while i < |jobs|
      invariant 0 <= i <= |jobs|
      invariant kept == Unexpired(jobs[..i], today)
    {
      assert jobs[..i + 1][..i] == jobs[..i];
      if !(jobs[i].deadline.Some? && Before(jobs[i].deadline.value, today)) {
        kept := kept + [jobs[i]];
      }
      i := i + 1;
    }
    assert jobs[..i] == jobs;
  }

  /** The company name a job sorts by: "" for an unknown company. */
  function CompanyName(companies: map<string, Company>, companyId: string): string {
    if companyId in companies then companies[companyId].name else ""
  }

  /** The comparator key of each sort option; any other option sorts by title. */
  function KeyOf(sortKey: string, companies: map<string, Company>): Job -> SortKey {
    if sortKey == "BY_COMPANY" then (j: Job) => Text(CompanyName(companies, j.companyId))
    else if sortKey == "BY_DEADLINE" then (j: Job) => if j.deadline.Some? then Day(j.deadline.value) else NoDay
    else (j: Job) => Text(j.title)
  }

  /**
   * What a list in key order means for each option: company names in `compareTo`
   * order, deadlines that never go back in time, or titles in `compareTo` order.
   */
  lemma SortedJobsFollowOption(sortKey: string, companies: map<string, Company>, js: seq<Job>)
    requires Sorted(js, KeyOf(sortKey, companies))
    ensures sortKey == "BY_COMPANY" ==> forall i, k :: 0 <= i < k < |js| ==>
      !TextLess(CompanyName(companies, js[k].companyId), CompanyName(companies, js[i].companyId))
    ensures sortKey == "BY_DEADLINE" ==> forall i, k :: 0 <= i < k < |js| && js[i].deadline.Some? && js[k].deadline.Some? ==>
      !Before(js[k].deadline.value, js[i].deadline.value)
    ensures sortKey != "BY_COMPANY" && sortKey != "BY_DEADLINE" ==> forall i, k :: 0 <= i < k < |js| ==>
      !TextLess(js[k].title, js[i].title)
  {
    var key := KeyOf(sortKey, companies);
    forall i, k | 0 <= i < k < |js|
      ensures !Less(key(js[k]), key(js[i]))
    {
    }
  }

  /** Why the job list could not be shown: sorting by deadline compared a missing deadline and threw. */
  datatype RefreshError = MissingDeadlineCompared

  /** A job the list shows: an open job of the repository whose deadline has not passed. */
  predicate Shown(repo: Repository, j: Job, today: Date)
    reads repo
  {
    j.id in repo.jobs && repo.jobs[j.id] == j && j.open && !Expired(j, today)
  }

  /** Removing the expired jobs from the open ones leaves exactly the jobs the list shows. */
  lemma ShownAreUnexpiredOpenJobs(repo: Repository, open: seq<Job>, today: Date)
    requires forall j :: j in open ==> j.open && j.id in repo.jobs && repo.jobs[j.id] == j
    requires forall k :: k in repo.jobs && repo.jobs[k].open ==> repo.jobs[k] in open
    ensures forall j :: j in Unexpired(open, today) <==> Shown(repo, j, today)
  {
    UnexpiredKeepsExactly(open, today);
  }

  lemma SameElements<T>(a: seq<T>, b: seq<T>)
    requires multiset(a) == multiset(b)
    ensures forall x :: x in a <==> x in b
  {
    forall x
      ensures x in a <==> x in b
    {
      assert x in a <==> x in multiset(a);
      assert x in b <==> x in multiset(b);
    }
  }

  /**
   * `refreshJobs`: the open jobs in the map's order (`listed`, after the
   * expired ones are removed), then sorted stably by the option's key. Sorting
   * two or more jobs compares every one of them, so by deadline a missing
   * deadline among two or more jobs throws.
   */
  method RefreshJobs(repo: Repository, sortKey: string, today: Date)
      returns (res: Result<seq<Job>, RefreshError>, ghost listed: seq<Job>)
    requires repo.Valid()
    ensures forall j :: j in listed <==> Shown(repo, j, today)
    ensures forall a, b :: 0 <= a < b < |listed| ==> listed[a].id != listed[b].id
    ensures res.Failure? <==> sortKey == "BY_DEADLINE" && |listed| >= 2 && exists j :: j in listed && j.deadline.None?
    ensures res.Success? ==> res.value == SortBy(listed, KeyOf(sortKey, repo.companies))
    ensures res.Success? ==> Sorted(res.value, KeyOf(sortKey, repo.companies)) && multiset(res.value) == multiset(listed)
    ensures res.Success? ==> forall j :: j in res.value <==> Shown(repo, j, today)
    ensures res.Success? && sortKey == "BY_COMPANY" ==> forall i, k :: 0 <= i < k < |res.value| ==>
      !TextLess(CompanyName(repo.companies, res.value[k].companyId), CompanyName(repo.companies, res.value[i].companyId))
    ensures res.Success? && sortKey == "BY_DEADLINE" && |res.value| >= 2 ==> forall j :: j in res.value ==> j.deadline.Some?
    ensures res.Success? && sortKey == "BY_DEADLINE" ==> forall i, k :: 0 <= i < k < |res.value| ==>
      res.value[i].deadline.Some? && res.value[k].deadline.Some? && !Before(res.value[k].deadline.value, res.value[i].deadline.value)
    ensures res.Success? && sortKey != "BY_COMPANY" && sortKey != "BY_DEADLINE" ==> forall i, k :: 0 <= i < k < |res.value| ==>
      !TextLess(res.value[k].title, res.value[i].title)
  {
    var open := repo.GetAllOpenJobs();
    var jobs := RemoveExpired(open, today);
    ShownAreUnexpiredOpenJobs(repo, open, today);
    UnexpiredKeepsIdsDistinct(open, today);
    listed := jobs;
    if sortKey == "BY_DEADLINE" && |jobs| >= 2 && exists j :: j in jobs && j.deadline.None? {
      return Failure(MissingDeadlineCompared), listed;
    }
    var sorted := Sort(jobs, KeyOf(sortKey, repo.companies));
    SameElements(sorted, jobs);
    assert |sorted| == |multiset(sorted)| == |multiset(jobs)| == |jobs|;
    SortedJobsFollowOption(sortKey, repo.companies, sorted);
    return Success(sorted), listed;
  }
}
