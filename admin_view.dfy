/**
 * The admin table: one display row per application, the ids read back out of
 * the "Name (ID)" cells, and the grade the save button hands over.
 */
module AdminView {
  import opened Wrappers
  import opened JavaText
  import opened Calendar
  import opened Entities
  import opened Repo

  /** The five columns: Candidate, Job, Company, Applied At, Grade. */
  datatype Row = Row(candidate: string, job: string, company: string, appliedAt: string, grade: string)

  const Unknown := "(Unknown)"

  /** A name followed by its id in parentheses, as the Candidate and Job cells show it. */
  function Labelled(name: string, id: string): string {
    name + " (" + id + ")"
  }

  /** The row `setData` builds for one application, looking names up in the repository. */
  function DisplayRow(repo: Repository, a: Application): Row
    reads repo
  {
    var cand := repo.FindCandidate(a.candidateId);
    var job := repo.FindJob(a.jobId);
    var comp := if job.None? then None else repo.FindCompany(job.value.companyId);
    Row(
      if cand.None? then Unknown else Labelled(FullName(cand.value), a.candidateId),
      if job.None? then Unknown else Labelled(job.value.title, a.jobId),
      if comp.None? then Unknown else comp.value.name,
      if a.appliedAt.None? then "" else RenderDateTime(a.appliedAt.value),
      a.grade)
  }

  /** One row per application, in list order. */
  function DisplayRows(repo: Repository, apps: seq<Application>): (rows: seq<Row>)
    reads repo
    ensures |rows| == |apps|
    ensures forall i :: 0 <= i < |apps| ==> rows[i] == DisplayRow(repo, apps[i])
  {
    if apps == [] then []
    else DisplayRows(repo, apps[..|apps| - 1]) + [DisplayRow(repo, apps[|apps| - 1])]
  }

  /** `c` sits at `i` and nowhere after it: `i` is the last index of `c`. */
  predicate IsLastAt(v: string, c: char, i: int) {
    0 <= i < |v| && v[i] == c && forall k :: i < k < |v| ==> v[k] != c
  }

  /**
   * `s.substring(lastIndexOf('(') + 1, lastIndexOf(')'))` when the last ')' comes
   * after the last '(', and "" otherwise: the text strictly between the last '('
   * and a later last ')' whenever there are such, else nothing.
   */
  function ExtractId(v: string): (id: string)
    ensures |id| <= |v|
    ensures forall s, e :: IsLastAt(v, '(', s) && IsLastAt(v, ')', e) && s < e ==> id == v[s + 1..e]
    ensures id != "" ==> exists s, e :: IsLastAt(v, '(', s) && IsLastAt(v, ')', e) && s < e
  {
    var s := LastIndexOf(v, '(');
    var e := LastIndexOf(v, ')');
    LastIndexIsUnique(v, '(');
    LastIndexIsUnique(v, ')');
    if s >= 0 && e > s then v[s + 1..e] else ""
  }

  /** Only one index is the last index of `c`, and `lastIndexOf` finds it. */
  lemma LastIndexIsUnique(v: string, c: char)
    ensures forall i :: IsLastAt(v, c, i) ==> i == LastIndexOf(v, c)
    ensures LastIndexOf(v, c) >= 0 ==> IsLastAt(v, c, LastIndexOf(v, c))
  {
    forall i | IsLastAt(v, c, i)
      ensures i == LastIndexOf(v, c)
    {
      LastIndexIs(v, c, i);
    }
  }

  /** A labelled cell reads back its id when the id has no parentheses, whatever the name holds. */
  lemma {:induction false} LabelledIdReadsBack(name: string, id: string)
    requires '(' !in id && ')' !in id
    ensures ExtractId(Labelled(name, id)) == id
  {
    var v := Labelled(name, id);
    var open := |name| + 1;
    var close := |v| - 1;
    assert v == name + " (" + id + ")";
    assert v[open] == '(' && v[close] == ')';
    assert forall k :: open < k < close ==> v[k] == id[k - open - 1];
    LastIndexIs(v, '(', open);
    LastIndexIs(v, ')', close);
    assert v[open + 1..close] == id;
  }

  /** When `c` sits at `i` and not after it, `lastIndexOf` finds `i`. */
  lemma {:induction false} LastIndexIs(v: string, c: char, i: int)
    requires 0 <= i < |v| && v[i] == c
    requires forall k :: i < k < |v| ==> v[k] != c
    ensures LastIndexOf(v, c) == i
  {
    if i < |v| - 1 {
      LastIndexIs(v[..|v| - 1], c, i);
    }
  }

  /** A dangling reference shows "(Unknown)", which reads back as the string "Unknown", not as the id. */
  lemma UnknownReadsBackAsWord()
    ensures ExtractId(Unknown) == "Unknown"
  {
    LastIndexIs(Unknown, '(', 0);
    LastIndexIs(Unknown, ')', 8);
  }

  /**
   * The other cells: the company is "(Unknown)" when the job or its company is
   * unknown, the applied-at time is empty exactly when there is none, and the
   * grade is shown as stored.
   */
  lemma DisplayRowCells(repo: Repository, a: Application)
    ensures var r := DisplayRow(repo, a);
      (a.jobId !in repo.jobs || repo.jobs[a.jobId].companyId !in repo.companies ==> r.company == Unknown) &&
      (a.jobId in repo.jobs && repo.jobs[a.jobId].companyId in repo.companies ==>
        r.company == repo.companies[repo.jobs[a.jobId].companyId].name) &&
      (r.appliedAt == "" <==> a.appliedAt.None?) &&
      (a.appliedAt.Some? ==> r.appliedAt == RenderDateTime(a.appliedAt.value)) &&
      r.grade == a.grade
  {
    if a.appliedAt.Some? {
      RenderedDateTimeIsPlain(a.appliedAt.value);
    }
  }

  /** `isCellEditable`: only the Grade column. */
  predicate IsCellEditable(row: int, column: int) {
    column == 4
  }

  /** The choices of the Grade column's combo box. */
  const GradeChoices: seq<string> := ["", "A", "B", "C", "D", "F"]

  /** What pressing "Save selected grade" does. */
  datatype SaveClick = PleaseSelectRow | Save(row: int, grade: string)

  /** The save button: no selection is an error; a null cell is sent as "", anything else trimmed. */
  function SaveButton(selectedRow: int, cell: Option<string>): (click: SaveClick)
    ensures selectedRow < 0 <==> click.PleaseSelectRow?
    ensures click.Save? ==> click.row == selectedRow && HasCleanEdges(click.grade)
    ensures click.Save? && cell.Some? ==> click.grade == Trim(cell.value)
    ensures click.Save? && cell.Some? && cell.value in GradeChoices ==> click.grade == cell.value
    ensures click.Save? && cell.None? ==> click.grade == ""
  {
    if selectedRow < 0 then PleaseSelectRow
    else Save(selectedRow, if cell.None? then "" else Trim(cell.value))
  }

  class AdminTable {
    var rows: seq<Row>

    constructor()
      ensures rows == []
    {
      rows := [];
    }

    /** `setData`: clear the table, then add one row per application, in order. */
    method SetData(apps: seq<Application>, repo: Repository)
      modifies this
      ensures rows == DisplayRows(repo, apps)
    {
      rows := [];
      var i := 0;
      while i < |apps|
        invariant 0 <= i <= |apps|
        invariant rows == DisplayRows(repo, apps[..i])
      {
        assert apps[..i + 1][..i] == apps[..i];
        rows := rows + [DisplayRow(repo, apps[i])];
        i := i + 1;
      }
      assert apps[..i] == apps;
    }

    /**
     * An edit through the table's cell editor, which `isCellEditable` allows in the
     * Grade column only: the cells the ids are read from can never be edited.
     */
    method EditCell(i: int, column: int, value: string)
      requires 0 <= i < |rows|
      modifies this
      ensures IsCellEditable(i, column) ==> rows == old(rows)[i := old(rows)[i].(grade := value)]
      ensures !IsCellEditable(i, column) ==> rows == old(rows)
      ensures forall k :: 0 <= k < |rows| ==> CandidateIdAtRow(k) == old(CandidateIdAtRow(k)) && JobIdAtRow(k) == old(JobIdAtRow(k))
    {
      if IsCellEditable(i, column) {
        rows := rows[i := rows[i].(grade := value)];
      }
    }

    /** `getCandidateIdAtRow`. */
    function CandidateIdAtRow(i: int): string
      reads this
      requires 0 <= i < |rows|
    {
      ExtractId(rows[i].candidate)
    }

    /** `getJobIdAtRow`. */
    function JobIdAtRow(i: int): string
      reads this
      requires 0 <= i < |rows|
    {
      ExtractId(rows[i].job)
    }
  }

  /**
   * A row of a table filled from the repository's applications reads back the
   * application's ids when the candidate and the job are known and their ids have
   * no parentheses; a dangling id reads back as "Unknown".
   */
  lemma RowReadsBackIds(repo: Repository, apps: seq<Application>, i: int)
    requires 0 <= i < |apps|
    ensures var row := DisplayRows(repo, apps)[i]; var a := apps[i];
      (a.candidateId in repo.candidates && '(' !in a.candidateId && ')' !in a.candidateId ==>
        ExtractId(row.candidate) == a.candidateId) &&
      (a.candidateId !in repo.candidates ==> ExtractId(row.candidate) == "Unknown") &&
      (a.jobId in repo.jobs && '(' !in a.jobId && ')' !in a.jobId ==> ExtractId(row.job) == a.jobId) &&
      (a.jobId !in repo.jobs ==> ExtractId(row.job) == "Unknown")
  {
    var a := apps[i];
    if a.candidateId in repo.candidates && '(' !in a.candidateId && ')' !in a.candidateId {
      LabelledIdReadsBack(FullName(repo.candidates[a.candidateId]), a.candidateId);
    }
    if a.jobId in repo.jobs && '(' !in a.jobId && ')' !in a.jobId {
      LabelledIdReadsBack(repo.jobs[a.jobId].title, a.jobId);
    }
    UnknownReadsBackAsWord();
  }
}
