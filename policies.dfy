/** Who may apply to which job: the CO-OP policy, the REGULAR policy and the dispatch between them. */
module Policies {
  import opened Entities

  /** `CoopPolicy.canApply`. */
  predicate CoopCanApply(c: Candidate, j: Job) {
    j.jobType == Coop && c.status == Studying
  }

  /** `RegularPolicy.canApply`. */
  predicate RegularCanApply(c: Candidate, j: Job) {
    j.jobType == Regular && c.status == Graduated
  }

  /** `Repository.canApply`: CO-OP jobs go to the CO-OP policy, every other job to the REGULAR one. */
  predicate CanApply(c: Candidate, j: Job) {
    if j.jobType == Coop then CoopCanApply(c, j) else RegularCanApply(c, j)
  }

  lemma CoopPolicyRejectsRegularJobsAndGraduates(c: Candidate, j: Job)
    ensures j.jobType == Regular ==> !CoopCanApply(c, j)
    ensures c.status == Graduated ==> !CoopCanApply(c, j)
    ensures CoopCanApply(c, j) <==> j.jobType == Coop && c.status == Studying
  {
  }

  lemma RegularPolicyRejectsCoopJobsAndStudents(c: Candidate, j: Job)
    ensures j.jobType == Coop ==> !RegularCanApply(c, j)
    ensures c.status == Studying ==> !RegularCanApply(c, j)
    ensures RegularCanApply(c, j) <==> j.jobType == Regular && c.status == Graduated
  {
  }

  /** No pair is accepted by both policies. */
  lemma PoliciesAreDisjoint(c: Candidate, j: Job)
    ensures !(CoopCanApply(c, j) && RegularCanApply(c, j))
  {
  }

  /** The dispatch is exact: a CO-OP job takes exactly the students, a REGULAR job exactly the graduates. */
  lemma CanApplyExactly(c: Candidate, j: Job)
    ensures CanApply(c, j) <==> (j.jobType == Coop && c.status == Studying) || (j.jobType == Regular && c.status == Graduated)
    ensures CanApply(c, j) <==> CoopCanApply(c, j) || RegularCanApply(c, j)
  {
  }

  /** Only the job type and the candidate status matter: ids, deadline and the open flag are ignored. */
  lemma CanApplyDependsOnTypeAndStatusOnly(c: Candidate, c': Candidate, j: Job, j': Job)
    requires j.jobType == j'.jobType && c.status == c'.status
    ensures CanApply(c, j) == CanApply(c', j')
    ensures CoopCanApply(c, j) == CoopCanApply(c', j')
    ensures RegularCanApply(c, j) == RegularCanApply(c', j')
  {
  }
}
