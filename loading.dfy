/**
 * How rows become entities (`loadCompanies`, `loadJobs`, `loadCandidates`,
 * `loadAdmins`): fixed column order, enum names upper-cased before lookup,
 * the last row of a duplicate id wins.
 */
module Loading {
  import opened Wrappers
  import opened JavaText
  import opened Calendar
  import opened Entities
  import opened Csv

  // ----- one row -----

  /** companies.csv: company_id,name,email,location */
  function DecodeCompany(r: seq<string>): Result<Company, LoadError> {
    if |r| < 4 then Failure(MissingField(|r|))
    else Success(Company(r[0], r[1], r[2], r[3]))
  }

  /** `JobType.valueOf(s.toUpperCase())`. */
  function ParseJobType(s: string): Option<JobType> {
    var u := Upper(s);
    if u == "REGULAR" then Some(Regular)
    else if u == "COOP" then Some(Coop)
    else None
  }

  /** `CandidateStatus.valueOf(s.toUpperCase())`. */
  function ParseStatus(s: string): Option<CandidateStatus> {
    var u := Upper(s);
    if u == "STUDYING" then Some(Studying)
    else if u == "GRADUATED" then Some(Graduated)
    else None
  }

  /** `Boolean.parseBoolean`: "true" in any case, everything else is false. */
  function ParseBoolean(s: string): bool {
    EqualsIgnoreCase(s, "true")
  }

  /** A blank deadline is no deadline; anything else must be an ISO date. */
  function ParseDeadline(s: string): Result<Option<Date>, LoadError> {
    if IsBlank(s) then Success(None)
    else match ParseDate(s)
      case Some(d) => Success(Some(d))
      case None => Failure(BadDate(s))
  }

  /**
   * jobs.csv: job_id,title,description,company_id,deadline,open,type. The fields
   * are read in that order, so a short row fails at the first missing one, and a
   * bad deadline is reported before a missing open flag.
   */
  function DecodeJob(r: seq<string>): Result<Job, LoadError> {
    if |r| < 5 then Failure(MissingField(|r|))
    else
      var deadline :- ParseDeadline(r[4]);
      if |r| < 7 then Failure(MissingField(|r|))
      else match ParseJobType(r[6])
        case None => Failure(BadEnumValue(r[6]))
        case Some(t) => Success(Job(r[0], r[1], r[2], r[3], deadline, ParseBoolean(r[5]), t))
  }

  /** candidates.csv: candidate_id,first_name,last_name,email,status */
  function DecodeCandidate(r: seq<string>): Result<Candidate, LoadError> {
    if |r| < 5 then Failure(MissingField(|r|))
    else match ParseStatus(r[4])
      case None => Failure(BadEnumValue(r[4]))
      case Some(st) => Success(Candidate(r[0], r[1], r[2], r[3], st))
  }

  lemma JobTypeIsCaseInsensitive(s: string, t: string)
    requires Upper(s) == Upper(t)
    ensures ParseJobType(s) == ParseJobType(t)
    ensures ParseJobType(s) == Some(Coop) <==> Upper(s) == "COOP"
    ensures ParseJobType(s) == Some(Regular) <==> Upper(s) == "REGULAR"
  {
  }

  lemma StatusIsCaseInsensitive(s: string, t: string)
    requires Upper(s) == Upper(t)
    ensures ParseStatus(s) == ParseStatus(t)
    ensures ParseStatus(s) == Some(Studying) <==> Upper(s) == "STUDYING"
    ensures ParseStatus(s) == Some(Graduated) <==> Upper(s) == "GRADUATED"
  {
  }

  /** What a decoded job row holds: a blank deadline is none, `open` is "true" in any case. */
  lemma DecodedJobFields(r: seq<string>)
    requires DecodeJob(r).Success?
    ensures var j := DecodeJob(r).value;
      |r| >= 7 &&
      j.id == r[0] && j.title == r[1] && j.description == r[2] && j.companyId == r[3] &&
      (j.deadline.None? <==> IsBlank(r[4])) &&
      (j.deadline.Some? ==> ParseDate(r[4]) == j.deadline) &&
      (j.open <==> Lower(r[5]) == "true") &&
      ParseJobType(r[6]) == Some(j.jobType)
  {
  }

  /** A job row fails exactly when it is short, its deadline is neither blank nor a date, or its type is unknown. */
  lemma DecodeJobFailsExactly(r: seq<string>)
    ensures DecodeJob(r).Failure? <==>
      |r| < 7 || (!IsBlank(r[4]) && ParseDate(r[4]).None?) || ParseJobType(r[6]).None?
  {
  }

  // ----- all rows -----

  /** Decode every row in order; the first row that fails decides the error. */
  function DecodeAll<T>(rows: seq<seq<string>>, decode: seq<string> -> Result<T, LoadError>): Result<seq<T>, LoadError> {
    if rows == [] then Success([])
    else
      var done :- DecodeAll(rows[..|rows| - 1], decode);
      var x :- decode(rows[|rows| - 1]);
      Success(done + [x])
  }

  lemma {:induction false} DecodeAllSucceeds<T>(rows: seq<seq<string>>, decode: seq<string> -> Result<T, LoadError>)
    requires DecodeAll(rows, decode).Success?
    ensures var xs := DecodeAll(rows, decode).value;
      |xs| == |rows| && forall i :: 0 <= i < |rows| ==> decode(rows[i]) == Success(xs[i])
  {
    if rows != [] {
      DecodeAllSucceeds(rows[..|rows| - 1], decode);
    }
  }

  lemma {:induction false} DecodeAllFails<T>(rows: seq<seq<string>>, decode: seq<string> -> Result<T, LoadError>)
    requires DecodeAll(rows, decode).Failure?
    ensures exists i :: (0 <= i < |rows| && decode(rows[i]) == Failure(DecodeAll(rows, decode).error) &&
      forall j :: 0 <= j < i ==> decode(rows[j]).Success?)
  {
    var init := rows[..|rows| - 1];
    if DecodeAll(init, decode).Failure? {
      DecodeAllFails(init, decode);
      var i :| 0 <= i < |init| && decode(init[i]) == Failure(DecodeAll(init, decode).error) &&
        forall j :: 0 <= j < i ==> decode(init[j]).Success?;
      assert decode(rows[i]) == Failure(DecodeAll(rows, decode).error);
    } else {
      DecodeAllSucceeds(init, decode);
      assert forall j :: 0 <= j < |rows| - 1 ==> decode(rows[j]).Success? by {
        forall j | 0 <= j < |rows| - 1 ensures decode(rows[j]).Success? {
          assert rows[j] == init[j];
        }
      }
    }
  }

  /** Decoding one more row: its item is added at the end, or its error becomes the result. */
  lemma DecodeAllSnoc<T>(rows: seq<seq<string>>, r: seq<string>, decode: seq<string> -> Result<T, LoadError>)
    requires DecodeAll(rows, decode).Success?
    ensures decode(r).Success? ==> DecodeAll(rows + [r], decode) == Success(DecodeAll(rows, decode).value + [decode(r).value])
    ensures decode(r).Failure? ==> DecodeAll(rows + [r], decode) == Failure(decode(r).error)
  {
    assert (rows + [r])[..|rows|] == rows;
  }

  lemma DecodeAllStep<T>(rows: seq<seq<string>>, i: nat, decode: seq<string> -> Result<T, LoadError>)
    requires i < |rows| && DecodeAll(rows[..i], decode).Success?
    ensures decode(rows[i]).Success? ==> DecodeAll(rows[..i + 1], decode) == Success(DecodeAll(rows[..i], decode).value + [decode(rows[i]).value])
    ensures decode(rows[i]).Failure? ==> DecodeAll(rows[..i + 1], decode) == Failure(decode(rows[i]).error)
  {
    assert rows[..i + 1] == rows[..i] + [rows[i]];
    DecodeAllSnoc(rows[..i], rows[i], decode);
  }

  /** Once a prefix fails, the whole input fails with the same error. */
  lemma {:induction false} DecodeAllFailsOnPrefix<T>(rows: seq<seq<string>>, i: nat, decode: seq<string> -> Result<T, LoadError>)
    requires i <= |rows| && DecodeAll(rows[..i], decode).Failure?
    ensures DecodeAll(rows, decode) == Failure(DecodeAll(rows[..i], decode).error)
  {
    if i < |rows| {
      assert rows[..|rows| - 1][..i] == rows[..i];
      DecodeAllFailsOnPrefix(rows[..|rows| - 1], i, decode);
    } else {
      assert rows[..i] == rows;
    }
  }

  /** Put every item in a map under its key, in order: a later item replaces an earlier one with the same key. */
  function LastByKey<T>(xs: seq<T>, key: T -> string): map<string, T> {
    if xs == [] then map[]
    else LastByKey(xs[..|xs| - 1], key)[key(xs[|xs| - 1]) := xs[|xs| - 1]]
  }

  lemma LastByKeySnoc<T>(xs: seq<T>, x: T, key: T -> string)
    ensures LastByKey(xs + [x], key) == LastByKey(xs, key)[key(x) := x]
  {
    assert (xs + [x])[..|xs|] == xs;
  }

  /** Item `i` is the last of `xs` whose key is `k`. */
  predicate IsLastWithKey<T>(xs: seq<T>, key: T -> string, k: string, i: int) {
    0 <= i < |xs| && key(xs[i]) == k && forall j :: i < j < |xs| ==> key(xs[j]) != k
  }

  /** Every item's key is in the map. */
  lemma {:induction false} LastByKeyHasEveryKey<T>(xs: seq<T>, key: T -> string)
    ensures forall i :: 0 <= i < |xs| ==> key(xs[i]) in LastByKey(xs, key)
  {
    if xs != [] {
      var init := xs[..|xs| - 1];
      LastByKeyHasEveryKey(init, key);
      forall i | 0 <= i < |xs| - 1
        ensures key(xs[i]) in LastByKey(xs, key)
      {
        assert xs[i] == init[i];
      }
    }
  }

  /** Each key of the map holds the LAST item that has it, and no other key is in the map. */
  lemma {:induction false} LastByKeyKeepsLast<T>(xs: seq<T>, key: T -> string)
    ensures forall k :: k in LastByKey(xs, key) ==>
      exists i :: IsLastWithKey(xs, key, k, i) && LastByKey(xs, key)[k] == xs[i]
  {
    if xs != [] {
      var init := xs[..|xs| - 1];
      var n := |xs| - 1;
      LastByKeyKeepsLast(init, key);
      var m := LastByKey(xs, key);
      forall k | k in m
        ensures exists i :: IsLastWithKey(xs, key, k, i) && m[k] == xs[i]
      {
        if k == key(xs[n]) {
          assert IsLastWithKey(xs, key, k, n);
        } else {
          assert k in LastByKey(init, key);
          var i :| IsLastWithKey(init, key, k, i) && LastByKey(init, key)[k] == init[i];
          assert IsLastWithKey(xs, key, k, i);
        }
      }
    }
  }

  /** Every item sits under its own key. */
  lemma LastByKeyIsKeyed<T>(xs: seq<T>, key: T -> string)
    ensures forall k :: k in LastByKey(xs, key) ==> key(LastByKey(xs, key)[k]) == k
    ensures forall k :: k in LastByKey(xs, key) ==> LastByKey(xs, key)[k] in xs
  {
    LastByKeyKeepsLast(xs, key);
    forall k | k in LastByKey(xs, key)
      ensures key(LastByKey(xs, key)[k]) == k && LastByKey(xs, key)[k] in xs
    {
      var i :| IsLastWithKey(xs, key, k, i) && LastByKey(xs, key)[k] == xs[i];
    }
  }

  // ----- each file -----

  function CompanyKey(c: Company): string { c.id }
  function JobKey(j: Job): string { j.id }
  function CandidateKey(c: Candidate): string { c.id }
  function CandidateEmailKey(c: Candidate): string { Lower(c.email) }

  /** `loadCompanies`: companies by id. */
  function CompaniesFrom(file: TextFile): Result<map<string, Company>, LoadError> {
    var rows :- ReadRows(file, "companies.csv", true);
    var cs :- DecodeAll(rows, DecodeCompany);
    Success(LastByKey(cs, CompanyKey))
  }

  /** `loadJobs`: jobs by id. */
  function JobsFrom(file: TextFile): Result<map<string, Job>, LoadError> {
    var rows :- ReadRows(file, "jobs.csv", true);
    var js :- DecodeAll(rows, DecodeJob);
    Success(LastByKey(js, JobKey))
  }

  /** The candidate rows of `loadCandidates`, decoded, in file order. */
  function CandidateRowsFrom(file: TextFile): Result<seq<Candidate>, LoadError> {
    var rows :- ReadRows(file, "candidates.csv", true);
    DecodeAll(rows, DecodeCandidate)
  }

  /** Lower-cased emails of every candidate row, including rows a later duplicate id replaced. */
  function EmailSet(cs: seq<Candidate>): set<string> {
    set c | c in cs :: Lower(c.email)
  }

  lemma EmailSetSnoc(cs: seq<Candidate>, c: Candidate)
    ensures EmailSet(cs + [c]) == EmailSet(cs) + {Lower(c.email)}
  {
    assert forall d :: d in cs + [c] <==> d in cs || d == c;
  }

  /** `loadAdmins` on rows: the first field trimmed, empty ones skipped, lower-cased. */
  function AdminEmailsOf(rows: seq<seq<string>>): set<string> {
    set r | r in rows && |r| > 0 && Trim(r[0]) != "" :: Lower(Trim(r[0]))
  }

  lemma AdminEmailsStep(rows: seq<seq<string>>, i: nat)
    requires i < |rows|
    ensures var r := rows[i];
      AdminEmailsOf(rows[..i + 1]) ==
        AdminEmailsOf(rows[..i]) + (if |r| > 0 && Trim(r[0]) != "" then {Lower(Trim(r[0]))} else {})
  {
    assert forall r :: r in rows[..i + 1] <==> r in rows[..i] || r == rows[i];
  }

  /** admins.csv is optional: without it nobody is an admin. */
  function AdminEmailsFrom(file: TextFile): set<string> {
    match file
    case None => {}
    case Some(lines) => AdminEmailsOf(CsvRows(Body(lines, true)))
  }

  /** Decoded rows only carry ids the reader produced: comma-free and not starting with a trimmable character. */
  predicate IsCleanId(id: string) {
    CommaFree(id) && StartsClean(id)
  }

  lemma {:induction false} DecodedIdsAreClean<T>(rows: seq<seq<string>>, decode: seq<string> -> Result<T, LoadError>, key: T -> string)
    requires forall r :: r in rows ==> IsReaderRow(r)
    requires forall r :: decode(r).Success? ==> |r| >= 1 && key(decode(r).value) == r[0]
    requires DecodeAll(rows, decode).Success?
    ensures forall x :: x in DecodeAll(rows, decode).value ==> IsCleanId(key(x))
  {
    DecodeAllSucceeds(rows, decode);
    var xs := DecodeAll(rows, decode).value;
    forall x | x in xs
      ensures IsCleanId(key(x))
    {
      var i :| 0 <= i < |xs| && xs[i] == x;
      assert rows[i] in rows;
      assert decode(rows[i]) == Success(x);
      assert IsReaderRow(rows[i]) && key(x) == rows[i][0];
      assert CommaFree(rows[i][0]);
    }
  }

  lemma CompanyIdsAreKeys(file: TextFile)
    requires CompaniesFrom(file).Success?
    ensures forall k :: k in CompaniesFrom(file).value ==> CompaniesFrom(file).value[k].id == k
  {
    var rows := ReadRows(file, "companies.csv", true).value;
    LastByKeyIsKeyed(DecodeAll(rows, DecodeCompany).value, CompanyKey);
  }

  lemma JobIdsAreCleanKeys(file: TextFile)
    requires JobsFrom(file).Success?
    ensures forall k :: k in JobsFrom(file).value ==> JobsFrom(file).value[k].id == k && IsCleanId(k)
  {
    var rows := ReadRows(file, "jobs.csv", true).value;
    var js := DecodeAll(rows, DecodeJob).value;
    ReadRowsAreReaderRows(file, "jobs.csv", true);
    DecodedIdsAreClean(rows, DecodeJob, JobKey);
    LastByKeyIsKeyed(js, JobKey);
  }

  lemma CandidateIdsAreCleanKeys(file: TextFile)
    requires CandidateRowsFrom(file).Success?
    ensures var m := LastByKey(CandidateRowsFrom(file).value, CandidateKey);
      forall k :: k in m ==> m[k].id == k && IsCleanId(k)
  {
    var rows := ReadRows(file, "candidates.csv", true).value;
    var cs := CandidateRowsFrom(file).value;
    ReadRowsAreReaderRows(file, "candidates.csv", true);
    DecodedIdsAreClean(rows, DecodeCandidate, CandidateKey);
    LastByKeyIsKeyed(cs, CandidateKey);
  }

  /** The email index and the email set agree, and every email is stored lower-cased. */
  lemma CandidateEmailIndex(cs: seq<Candidate>)
    ensures LastByKey(cs, CandidateEmailKey).Keys == EmailSet(cs)
    ensures forall e :: e in EmailSet(cs) ==> Lower(e) == e
    ensures forall e :: e in LastByKey(cs, CandidateEmailKey) ==> Lower(LastByKey(cs, CandidateEmailKey)[e].email) == e
  {
    var m := LastByKey(cs, CandidateEmailKey);
    LastByKeyHasEveryKey(cs, CandidateEmailKey);
    LastByKeyIsKeyed(cs, CandidateEmailKey);
    forall e | e in EmailSet(cs)
      ensures Lower(e) == e && e in m
    {
      var c :| c in cs && Lower(c.email) == e;
      LowerIsIdempotent(c.email);
      var i :| 0 <= i < |cs| && cs[i] == c;
    }
    forall e | e in m
      ensures e in EmailSet(cs)
    {
      assert m[e] in cs;
    }
  }

  /** Admin emails are trimmed, non-empty and lower-cased, so membership ignores case. */
  lemma AdminEmailsAreNormalised(rows: seq<seq<string>>)
    ensures forall e :: e in AdminEmailsOf(rows) ==> e != "" && Lower(e) == e && HasCleanEdges(e)
  {
    forall e | e in AdminEmailsOf(rows)
      ensures e != "" && Lower(e) == e && HasCleanEdges(e)
    {
      var r :| r in rows && |r| > 0 && Trim(r[0]) != "" && e == Lower(Trim(r[0]));
      LowerIsIdempotent(Trim(r[0]));
      LowerKeepsTrimmable(Trim(r[0]));
    }
  }

  lemma LowerKeepsTrimmable(s: string)
    ensures forall i :: 0 <= i < |s| ==> (IsTrimmable(Lower(s)[i]) <==> IsTrimmable(s[i]))
    ensures HasCleanEdges(s) ==> HasCleanEdges(Lower(s))
  {
  }
}
