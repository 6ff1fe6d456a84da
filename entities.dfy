/** The records of the job fair: companies, jobs, candidates, applications and the login session. */
module Entities {
  import opened Wrappers
  import opened Calendar

  /** A company; its id is an 8-digit number by convention only. */
  datatype Company = Company(id: string, name: string, email: string, location: string)

  datatype JobType = Regular | Coop

  /** A job; `deadline` is `None` when the job never expires. */
  datatype Job = Job(
    id: string,
    title: string,
    description: string,
    companyId: string,
    deadline: Option<Date>,
    open: bool,
    jobType: JobType)

  /** Exactly two statuses: the status field can hold nothing else. */
  datatype CandidateStatus = Studying | Graduated

  /** A candidate; the 8-digit id convention is not enforced. */
  datatype Candidate = Candidate(
    id: string,
    firstName: string,
    lastName: string,
    email: string,
    status: CandidateStatus)

  /** `Candidate.fullName`: first name, one space, last name. */
  function FullName(c: Candidate): (name: string)
    ensures |name| == |c.firstName| + |c.lastName| + 1
    ensures name[..|c.firstName|] == c.firstName
    ensures name[|c.firstName|] == ' '
    ensures name[|c.firstName| + 1..] == c.lastName
  {
    c.firstName + " " + c.lastName
  }

  /**
   * An application of a candidate to a job. The grade is "" or a letter; in the
   * source it is the only field that changes after construction.
   */
  datatype Application = Application(
    jobId: string,
    candidateId: string,
    appliedAt: Option<Timestamp>,
    grade: string)

  /** The `Application` constructor: a null grade is stored as "", everything else as given. */
  function NewApplication(jobId: string, candidateId: string, appliedAt: Option<Timestamp>, grade: Option<string>): (a: Application)
    ensures a.jobId == jobId && a.candidateId == candidateId && a.appliedAt == appliedAt
    ensures grade.None? ==> a.grade == ""
    ensures grade.Some? ==> a.grade == grade.value
  {
    Application(jobId, candidateId, appliedAt, if grade.None? then "" else grade.value)
  }

  /** Who is logged in: lower-cased email and role. */
  datatype Session = Session(email: string, role: string)
}
