# Job fair repository, modelled in Dafny

This project models the core of a small job-fair application written in Java.
Students apply to jobs offered by companies, and admins grade the applications.

**The repository (`Repository.java`).** It loads five comma-separated files from a database directory.

| file | loaded into |
|---|---|
| companies.csv | map by id |
| jobs.csv | map by id |
| candidates.csv | map by id, plus a set and an index of lower-cased emails |
| admins.csv (optional) | set of lower-cased emails |
| applications.csv | list of applications |

- **Reading.** A file is modelled as the sequence of its lines. The reader is `readCsv`:
  - it drops the header;
  - it drops every line that is blank after `trim`;
  - it splits the remaining lines on every comma, keeping empty fields.

  It does no quoting, so it is not the format of section 2 of RFC 4180.
- **Queries.**
  - `find*` lookups.
  - `getAllOpenJobs`: map order is not specified, so only the contents are.
  - `isValidEmail`: the regular expression, written out as character classes.
  - `isCandidateEmail` / `isAdminEmail`: ignore case.
  - `canApply`: dispatches between the CO-OP and REGULAR policies.
- **Session.** The login session is a mutable slot.
- **Changing the applications.** They change in exactly two ways:
  - `appendApplication` adds one line to the file and one record to the list. The line ends in an empty grade field only when the file's first line names a grade column.
  - `saveGrade` sets the grade of the first application for a (job, candidate) pair. It then rewrites the whole file with the fixed four-column header. This is also how a legacy three-column file is upgraded.

The `Repository` is a Dafny class. It has the Java fields plus `applicationsFile`, the lines of applications.csv. Its methods change these fields as the Java methods do. `Valid()` and `Consistent()` are invariants its methods preserve. `Consistent()` means the list is what reloading the file gives.

**Dates and times.** Dates are ISO 8601 calendar dates (section 4.1.2 of ISO 8601:2004). Date-times follow section 4.3. Both are modelled concretely, and their parse/print round trips are proved rather than assumed. The date-time separator is read ignoring case, as `ISO_LOCAL_DATE_TIME` does. The limits of this model are listed under "## Left out".

**The controller (`JobFairController.java`).** Its handlers become decision functions plus the one state change each leads to:
- **login:** email format, then the role's email list, then the session;
- **apply click:** the job exists, the session is a student's, and the email maps to a candidate;
- **confirm apply:** both records exist, the policy allows it, then append;
- **save grade:** `""` or one of A, B, C, D, F, then `saveGrade`, then refill the admin table.

`refreshJobs` keeps the open jobs that are not expired. It then sorts them stably by company name, deadline or title. The stable merge sort of `List.sort` is specified by a stable insertion sort it agrees with.

**The admin view (`AdminView.java`).** `setData` builds one display row per application. `getCandidateIdAtRow` / `getJobIdAtRow` read an id back out of a `"Name (ID)"` cell.

Modules, in dependency order:

| module | what it holds |
|---|---|
| `Wrappers` | Option and Result |
| `Sequences` | generic sequence identities |
| `JavaText` | trim, isBlank, case mapping, split, join, lastIndexOf |
| `Calendar` | dates and date-times |
| `Entities` | the records |
| `Policies` | the eligibility policies |
| `Email` | the email pattern |
| `Csv` | the file reader |
| `Loading` | rows to entities |
| `ApplicationsFile` | the format of applications.csv |
| `Repo` | the repository class |
| `AdminView` | the admin table |
| `Sorting` | orderings and the stable sort |
| `Controller` | the handlers and the job list |

## Model

| member | source | states |
|---|---|---|
| JavaText.Trim | src/model/Repository.java:289 | `trim` leaves nothing at or below U+0020 at either end and never lengthens the text |
| JavaText.TrimIsInfix | src/model/Repository.java:289 | `trim` returns a contiguous piece of its input and removes only characters at or below U+0020, only at the two ends |
| JavaText.Lower | src/model/Repository.java:195 | `toLowerCase` keeps the length of the text |
| JavaText.LowerIsIdempotent | src/model/Repository.java:195-197 | lower-casing an already lower-cased email changes nothing, so the stored keys are fixed points of the lookup |
| JavaText.SplitOfJoin | src/model/Repository.java:291 | `split(",", -1)` of comma-free fields joined with commas gives back exactly those fields, empty ones included |
| JavaText.JoinOfSplit | src/model/Repository.java:291 | joining the fields of `split(",", -1)` with commas gives back the line: the split drops nothing |
| JavaText.SplitCountsCommas | src/model/Repository.java:291 | a line splits into one field more than it has commas (trailing empty fields are kept) |
| JavaText.LastIndexOf | src/view/AdminView.java:87 | `lastIndexOf` is -1 or the index of an occurrence with no occurrence after it |
| Csv.ReadCsv | src/model/Repository.java:283-294 | a missing file fails with FileNotFound; otherwise the rows of every line after the header that is not blank once trimmed, in file order |
| Csv.CsvRowsAreSplitLines | src/model/Repository.java:288-292 | exactly one row per non-blank line, in order, each the split of the trimmed line |
| Csv.RowOfIsReaderRow | src/model/Repository.java:289-291 | every row read has comma-free fields, a first field that starts clean and a last field that ends clean |
| Csv.JoinedRowReadsBack | src/model/Repository.java:289-291 | conversely, such a row of two or more fields written with commas is a non-blank line that reads back as itself |
| Csv.ReadRowsAreReaderRows | src/model/Repository.java:283-294 | every row of a successful read has that shape |
| Loading.JobTypeIsCaseInsensitive | src/model/Repository.java:182 | the job type parses the same for any two spellings that upper-case alike, and is COOP or REGULAR exactly for those names |
| Loading.StatusIsCaseInsensitive | src/model/Repository.java:192 | the same for the candidate status, STUDYING or GRADUATED |
| Loading.DecodedJobFields | src/model/Repository.java:177-184 | a decoded job takes its fields in column order; its deadline is absent exactly when the field is blank; `open` holds exactly for "true" in any case |
| Loading.DecodeJobFailsExactly | src/model/Repository.java:179-182 | a job row fails exactly when it has fewer than 7 fields, a non-blank deadline that is not a date, or an unknown type |
| Loading.DecodeAllSucceeds | src/model/Repository.java:177-184 | a successful load decodes every row, one entity per row, in file order |
| Loading.DecodeAllFails | src/model/Repository.java:177-184 | a failed load fails with the error of the first row that fails, and every row before it decodes |
| Loading.LastByKeyHasEveryKey | src/model/Repository.java:183 | every loaded id is a key of the map |
| Loading.LastByKeyKeepsLast | src/model/Repository.java:183 | each key holds the last row with that id: a later duplicate replaces an earlier one |
| Loading.CompanyIdsAreKeys | src/model/Repository.java:168-173 | every company sits under its own id |
| Loading.JobIdsAreCleanKeys | src/model/Repository.java:176-185 | every job sits under its own id, which is comma-free and starts clean |
| Loading.CandidateIdsAreCleanKeys | src/model/Repository.java:188-199 | every candidate sits under its own id, which is comma-free and starts clean |
| Loading.CandidateEmailIndex | src/model/Repository.java:195-197 | the email set and the email index have the same keys, all lower-cased, each indexing a candidate with that email |
| Loading.AdminEmailsAreNormalised | src/model/Repository.java:202-209 | admin emails are non-empty, trimmed and lower-cased |
| Calendar.ParseDate | src/model/Repository.java:180 | `LocalDate.parse` only yields real calendar dates (month lengths and leap years) |
| Calendar.ParseRenderDate | src/model/Repository.java:180 | parsing a printed date gives the date back |
| Calendar.RenderParseDate | src/model/Repository.java:180 | printing a parsed date gives the text back: `yyyy-MM-dd` has one spelling |
| Calendar.CanonicalClockIsCanonical | src/model/Repository.java:274 | the time of day `toString` prints is itself canonical: printing it again changes nothing |
| Calendar.ParseDateTime | src/model/Repository.java:255 | `LocalDateTime.parse` only yields date-times `toString` can print, from a date, a 'T' or 't' and a time of day |
| Calendar.LowerCaseSeparatorIsAccepted | src/model/Repository.java:255 | the separator is read ignoring case: 't' parses as 'T' does |
| Calendar.ParseRenderDateTime | src/model/Repository.java:255 | parsing a printed date-time gives it back |
| Calendar.RenderParseDateTime | src/model/Repository.java:255 | printing a parsed date-time gives the text with an upper-case 'T' and its time of day in canonical form (the text itself when already so) |
| Calendar.RenderedDateTimeIsPlain | src/model/Repository.java:274 | a printed date-time has no comma, no edge whitespace and is not blank, so it is a safe CSV field |
| Entities.FullName | src/model/Candidate.java:22 | the first name, one space, then the last name; length is the sum plus one |
| Entities.NewApplication | src/model/Application.java:12-17 | ids and time stored as given; a null grade becomes "", any other grade is kept verbatim |
| Policies.CoopPolicyRejectsRegularJobsAndGraduates | src/model/CoopPolicy.java:7 | CO-OP policy: true exactly for a COOP job and a STUDYING candidate; false for every REGULAR job and every GRADUATED candidate |
| Policies.RegularPolicyRejectsCoopJobsAndStudents | src/model/RegularPolicy.java:7 | REGULAR policy: true exactly for a REGULAR job and a GRADUATED candidate; false for every COOP job and every STUDYING candidate |
| Policies.PoliciesAreDisjoint | src/model/RegularPolicy.java:7 | no pair is accepted by both policies |
| Policies.CanApplyExactly | src/model/Repository.java:129-132 | `canApply` holds exactly for (COOP, STUDYING) and (REGULAR, GRADUATED), i.e. exactly when one of the policies accepts |
| Policies.CanApplyDependsOnTypeAndStatusOnly | src/model/CoopPolicy.java:7 | the decision depends only on the job type and the candidate status |
| Email.IsValidEmailMatchesPattern | src/model/Repository.java:65-66 | the check is false for null and otherwise holds exactly when the pattern `^[A-Za-z0-9._%+-]+@[A-Za-z0-9.-]+\.[A-Za-z]{2,}$` matches the whole text |
| Email.ValidEmailHasOneAt | src/model/Repository.java:65 | a valid email has exactly one '@' |
| Email.ValidEmailExample | src/model/Repository.java:65-66 | `user@domain.com` is valid |
| Email.InvalidEmailExamples | src/model/Repository.java:65-66 | `user@domain`, `not-an-email` and null are not |
| ApplicationsFile.HeaderNamesGrade | src/model/Repository.java:271 | a file starting with the fixed header passes the grade-column test |
| ApplicationsFile.LegacyFileLoadsEmptyGrades | src/model/Repository.java:259 | a file whose header does not name a grade loads with every grade "" |
| ApplicationsFile.RenderApplicationIsCommaSeparated | src/model/Repository.java:274-276 | a rewritten line is job id, candidate id, time ("" when absent) and grade, separated by commas |
| ApplicationsFile.RenderedLinesReadBack | src/model/Repository.java:244-261 | the rewritten lines of storable applications decode back to the same list |
| ApplicationsFile.ReloadRewritten | src/model/Repository.java:269-280 | loading a rewritten file gives back exactly the list that was written |
| ApplicationsFile.RewriteUpgradesLegacyFile | src/model/Repository.java:269-280 | rewriting a legacy three-column file gives a file with the grade column, and its applications all had grade "" |
| ApplicationsFile.AppendedLineIsJoin | src/model/Repository.java:141 | the appended line is the comma join of job id, candidate id, time and, when the header names a grade, an empty fourth field |
| ApplicationsFile.AppendedLineReadsBack | src/model/Repository.java:139-145 | the appended line decodes to the very application added to the list |
| ApplicationsFile.ReloadAfterAppend | src/model/Repository.java:139-145 | after an append to a file with a header, reloading gives the old list plus the new application: file and list stay in step |
| ApplicationsFile.EnsureApplicationsFileAsWritten | src/model/Repository.java:216-222 | as written: a missing file gets the header, an existing one (even empty) is left as is |
| ApplicationsFile.EmptyFileLosesFirstApplication | src/model/Repository.java:216-229 | on an existing empty file the first appended application is lost on reload (see Findings) |
| ApplicationsFile.EnsureApplicationsFile | src/model/Repository.java:216-222 | corrected: a missing or empty file gets the header; otherwise the file is unchanged; the result is never empty |
| ApplicationsFile.EnsuredFileKeepsAppends | src/model/Repository.java:216-229 | with the correction every file loads as before and the first append reads back |
| Repo.LoadDatabaseFields | src/model/Repository.java:88-94 | a successful load holds the companies, jobs, candidates, emails, admins and applications each loader produces |
| Repo.LoadDatabaseSteps | src/model/Repository.java:88-98 | the files are loaded in order and the first failing one decides the error |
| Repo.LoadedSnapshotIsValid | src/model/Repository.java:80-99 | a loaded repository satisfies the id, email and file invariants, and its list is what its file loads to |
| Repo.CorrectedEnsureOnlyAddsHeader | src/model/Repository.java:216-222 | the corrected ensure differs from the source's only on an existing empty applications.csv, which becomes the header alone instead of staying empty; no application is loaded either way |
| Repo.LoadedCandidateEmails | src/model/Repository.java:195-196 | an email is a candidate email exactly when some candidate row's email equals it ignoring case |
| Repo.LoadedAdminEmails | src/model/Repository.java:202-209 | an email is an admin email exactly when admins.csv exists and some trimmed, non-empty first field equals it ignoring case |
| Repo.AdminLookup | src/model/Repository.java:203-206 | membership in the admin set of given rows is a case-insensitive match on trimmed first fields |
| Repo.SetFirstGrade | src/model/Repository.java:155-160 | the grade update keeps the number of applications |
| Repo.SetFirstGradeAtFirst | src/model/Repository.java:155-160 | only the first application for the pair changes, and only in its grade |
| Repo.SetFirstGradeMiss | src/model/Repository.java:155-160 | with no application for the pair nothing changes |
| Repo.FirstForExists | src/model/Repository.java:155-158 | when some application matches, a first one does |
| Repo.SetFirstGradeKeepsStorable | src/model/Repository.java:153-163 | storable applications stay storable under a storable grade |
| Repo.DuplicateGradesFirstOnly | src/model/Repository.java:155-159 | of two applications for the same pair the later one can never be graded |
| Repo.ApplicationsFailAt | src/model/Repository.java:244-261 | a line that fails to decode makes the whole applications load fail with its error |
| Repo.EmailLookupIgnoresCase | src/model/Repository.java:69-71 | looking up the lower-cased input in a lower-cased set is a case-insensitive match |
| Repo.Repository.Empty | src/model/Repository.java:32-43 | all maps, sets and the list start empty, and there is no session |
| Repo.Repository.Open | src/model/Repository.java:80-99 | succeeds exactly when the whole database loads, with exactly the loaded state, no session, and both invariants; fails with the first error |
| Repo.Repository.LoadCompanies | src/model/Repository.java:168-173 | fills the company map with the last row per id, changes nothing else, or fails as the reader or a short row does |
| Repo.Repository.LoadJobs | src/model/Repository.java:176-185 | the same for jobs |
| Repo.Repository.LoadCandidates | src/model/Repository.java:188-199 | fills the id map, the email set and the email index from the same rows, or fails |
| Repo.Repository.AddCandidate | src/model/Repository.java:193-197 | one candidate is indexed by id and by lower-cased email; nothing else changes |
| Repo.Repository.LoadAdmins | src/model/Repository.java:202-209 | the admin set becomes the trimmed, non-empty, lower-cased first fields |
| Repo.Repository.LoadApplications | src/model/Repository.java:236-263 | the list becomes the decoded lines after the first, grades read only under a grade header; the file is untouched |
| Repo.Repository.FindCompany | src/model/Repository.java:104 | null exactly for an unknown id, else the company with that id |
| Repo.Repository.FindJob | src/model/Repository.java:107 | null exactly for an unknown id, else the job with that id |
| Repo.Repository.FindCandidate | src/model/Repository.java:110 | null exactly for an unknown id, else the candidate with that id |
| Repo.Repository.FindCandidateByEmailLower | src/model/Repository.java:113 | null exactly for an unknown key, else a candidate whose lower-cased email is the key |
| Repo.Repository.GetAllOpenJobs | src/model/Repository.java:116-120 | exactly the open jobs of the map, each once |
| Repo.Repository.GetAllCandidates | src/model/Repository.java:123 | exactly the candidates of the map, each once |
| Repo.Repository.IsCandidateEmail | src/model/Repository.java:69 | false for null, else true exactly when a candidate email equals the input ignoring case |
| Repo.Repository.IsAdminEmail | src/model/Repository.java:71 | false for null, else true exactly when an admin email equals the input ignoring case |
| Repo.Repository.GetAllApplications | src/model/Repository.java:126 | the list, in order |
| Repo.Repository.SetCurrentUser | src/model/Repository.java:60 | the session becomes (email, role) and nothing else changes |
| Repo.Repository.AppendApplication | src/model/Repository.java:139-145 | one application at the end of the list and its line at the end of the file, duplicates allowed; keeps `Valid` and, for loader ids, `Consistent` |
| Repo.Repository.SaveGrade | src/model/Repository.java:153-163 | the first match gets the grade (null as ""), the file becomes the rewrite of the new list even on a miss; keeps `Valid`, and `Consistent` for storable lists |
| Repo.Repository.WriteApplicationsToFile | src/model/Repository.java:269-280 | the file becomes the header followed by one line per application in order; nothing else changes |
| Sorting.TextLessIsIrreflexive | src/controller/JobFairController.java:236 | no string sorts before itself |
| Sorting.TextLessIsTransitive | src/controller/JobFairController.java:236 | string order is transitive |
| Sorting.TextLessIsTotal | src/controller/JobFairController.java:236 | any two different strings are ordered one way |
| Sorting.LessIsStrictTotalOrder | src/controller/JobFairController.java:222-237 | the comparator's "before" is a strict total order on keys |
| Sorting.InsertIsPermutation | src/controller/JobFairController.java:222-237 | inserting adds exactly the one element |
| Sorting.InsertKeepsSorted | src/controller/JobFairController.java:222-237 | inserting into a sorted list keeps it sorted |
| Sorting.InsertKeepsEqualKeysInOrder | src/controller/JobFairController.java:222-237 | the inserted element goes after every element with an equal key |
| Sorting.SortByIsSorted | src/controller/JobFairController.java:222-237 | the sorted list is in key order |
| Sorting.SortByIsPermutation | src/controller/JobFairController.java:222-237 | the sorted list is a permutation of its input |
| Sorting.SortByIsStable | src/controller/JobFairController.java:222-237 | elements with equal keys keep their relative order |
| Sorting.Sort | src/controller/JobFairController.java:222-237 | the in-order insertion loop computes the stable sort: sorted and a permutation |
| Sorting.InsertAt | src/controller/JobFairController.java:222-237 | one insertion step of that loop |
| AdminView.DisplayRows | src/view/AdminView.java:69-81 | exactly one row per application, in list order |
| AdminView.DisplayRowCells | src/view/AdminView.java:74-79 | the company cell is "(Unknown)" when the job or its company is unknown, else the company name; applied-at is "" exactly when absent; the grade is shown as stored |
| AdminView.ExtractId | src/view/AdminView.java:84-94 | both directions: when the last '(' comes before the last ')' the id is the text strictly between them, and otherwise it is "" |
| AdminView.LastIndexIsUnique | src/view/AdminView.java:87 | only one index holds a character with none after it, and `lastIndexOf` returns it |
| AdminView.LabelledIdReadsBack | src/view/AdminView.java:84-89 | `name (id)` extracts back to `id` when the id has no parentheses, whatever the name holds |
| AdminView.LastIndexIs | src/view/AdminView.java:87 | `lastIndexOf` finds a character that does not occur later |
| AdminView.UnknownReadsBackAsWord | src/view/AdminView.java:75-76 | "(Unknown)" extracts to the word "Unknown", not to an id |
| AdminView.SaveButton | src/view/AdminView.java:52-60 | no selection is an error; otherwise the selected row is handed over with `trim` of the cell, a null cell as "", a combo-box choice unchanged |
| AdminView.AdminTable.constructor | src/view/AdminView.java:34-41 | the table starts with no rows |
| AdminView.AdminTable.SetData | src/view/AdminView.java:69-81 | the table is cleared and refilled with one row per application, in order |
| AdminView.AdminTable.EditCell | src/view/AdminView.java:36-48 | only the Grade cell of a row can be edited, so the candidate and job ids every row reads back never change |
| AdminView.RowReadsBackIds | src/view/AdminView.java:69-94 | a row of a known candidate or job with a parenthesis-free id reads back that id; a dangling one reads back "Unknown" |
| Controller.LoginDecision | src/controller/JobFairController.java:40-69 | a malformed email is rejected before any role check; an unknown role is rejected; a success carries the lower-cased email and role |
| Controller.LoginSucceedsExactly | src/controller/JobFairController.java:50-61 | login succeeds exactly for a well-formed email matching a candidate email (student) or an admin email (admin) ignoring case |
| Controller.Login | src/controller/JobFairController.java:40-69 | the session changes only on success; the repository data never changes |
| Controller.ApplyClick | src/controller/JobFairController.java:94-122 | the form opens exactly for a known job, a student session and an email that maps to a candidate; without a session it is rejected like an admin |
| Controller.StudentLoginLetsApply | src/controller/JobFairController.java:103-114 | after a successful student login the session's email maps to a candidate, so any known job can be applied to |
| Controller.ConfirmDecision | src/controller/JobFairController.java:137-152 | append exactly when both records exist and the policy allows it; otherwise the matching error |
| Controller.ConfirmApply | src/controller/JobFairController.java:135-158 | on rejection nothing changes; otherwise exactly one append for the given ids, with every other part of the repository's state unchanged; both invariants are kept |
| Controller.SaveButtonFeedsGradeCheck | src/controller/JobFairController.java:183 | with a row selected, the grade the button sends passes the handler's check exactly when the cell is null or its trimmed text is one of the choices |
| Controller.GradeTextIsAChoice | src/controller/JobFairController.java:183 | the accepted grades are exactly the admin table's choices "", A, B, C, D, F |
| Controller.GradeTextIsStorable | src/controller/JobFairController.java:183 | an accepted grade is a safe CSV field |
| Controller.SaveGradeClick | src/controller/JobFairController.java:177-200 | a rejected grade changes nothing; otherwise the row's ids get the grade, the file is rewritten and the table refilled, with every other part of the repository's state unchanged; invariants kept |
| Controller.SavedRowIsGraded | src/controller/JobFairController.java:179-192 | saving on a row grades that row's application when its ids read back and no earlier application is for the same pair |
| Controller.UnexpiredKeepsExactly | src/controller/JobFairController.java:219 | `removeIf` keeps exactly the jobs whose deadline is absent or not before today |
| Controller.UnexpiredKeepsIdsDistinct | src/controller/JobFairController.java:219 | the filter keeps distinct ids distinct |
| Controller.DeadlineTodayIsKept | src/controller/JobFairController.java:219 | a job due today is still shown |
| Controller.RemoveExpired | src/controller/JobFairController.java:219 | the loop computes the filter |
| Controller.SortedJobsFollowOption | src/controller/JobFairController.java:222-237 | a list in the option's key order has company names (BY_COMPANY, "" for an unknown company), present deadlines (BY_DEADLINE) or titles (any other option) never decreasing under `compareTo` / `isBefore` |
| Controller.ShownAreUnexpiredOpenJobs | src/controller/JobFairController.java:215-219 | filtering the open jobs leaves exactly the open, unexpired jobs of the repository |
| Controller.RefreshJobs | src/controller/JobFairController.java:213-241 | the list is a stable, sorted permutation of exactly the shown jobs, with company names, deadlines or titles never decreasing as the option asks; by deadline a missing deadline among two or more jobs is an error, so a shown list of two or more has every deadline |

## Left out

- Swing: the views other than the admin table's rows, dialogs, page navigation, window titles and enabling the apply button are not modelled.
- The handlers' follow-ups are not modelled: `refreshJobs` after a student login or an append, and `setData` after an admin login. Each is modelled on its own.
- Logout only changes the page and is not modelled.
- File I/O is modelled as sequences of lines:
  - `IOException`s other than a missing file are not modelled;
  - platform line separators are not modelled;
  - an append to a file whose last line lacks a line break is not modelled (the model adds a separate line);
  - the atomicity of the rewrite on a crash is not modelled.
- A field that holds a line break is excluded from the read-back lemmas (`Storable`). Neither the file nor the reader models line breaks inside a line.
- `LocalDate.now()` and `LocalDateTime.now()` are parameters (`today`, `now`).
- `toLowerCase`, `toUpperCase` and `equalsIgnoreCase` are modelled on the ASCII letters only.
- Platform defaults: the model assumes a UTF-8 default charset and a locale without special casing (as `Locale.ROOT`). The append at src/model/Repository.java:142 encodes with `getBytes()` in the platform charset, while the reads and the rewrite use UTF-8. So under another default charset a non-ASCII id may fail to load or read back changed, which `ApplicationsFile.AppendedLineReadsBack` and `ApplicationsFile.ReloadAfterAppend` do not capture. Likewise `toUpperCase`/`toLowerCase` at src/model/Repository.java:182, 192, 195, 206, 228, 241 and src/controller/JobFairController.java:47, 69 use the default locale. Under a Turkish or Azerbaijani locale 'i' and 'I' map to dotted or dotless letters, so `Loading.StatusIsCaseInsensitive`, `Loading.JobTypeIsCaseInsensitive` and `Controller.LoginSucceedsExactly` hold only under the assumed locale.
- `Character.isWhitespace` is modelled by its fixed character list. Supplementary characters are not modelled.
- `String.compareTo` compares UTF-16 code units. The model compares Dafny characters, which differ only above U+FFFF.
- Calendar.ParseDateTime: a decimal point after the seconds with no fraction digits is rejected; the model requires one to nine digits.
- Years outside 0..9999 are not modelled. `LocalDate` prints them with a sign and `parse` needs the sign.
- `HashMap` iteration order is not modelled: `GetAllOpenJobs` and `GetAllCandidates` pick any order. `RefreshJobs` states its result in terms of that order (`listed`).
- The sort is specified by a stable insertion sort. TimSort's merge steps are not modelled, only its result.
- Sorting.Less: keys of different kinds are ranked by kind. This case never arises without an error, because a null deadline is reported instead of compared.
- Applications are values in a sequence. The aliasing of `Application` objects between the repository's list and the copies handed to the view is not modelled.
- Repo.Repository.LoadCompanies, LoadJobs, LoadCandidates, LoadAdmins and LoadApplications require their target fields to be empty. That is how the constructor calls them; loading twice into one object is not modelled.
- Repo.Repository.Open: the constructor uses the corrected `EnsureApplicationsFile` (see Findings). On an existing empty applications.csv the model's file is the header alone, where the source's stays empty; `Repo.CorrectedEnsureOnlyAddsHeader` states that this is the only difference and that no application is loaded either way.
- LoadDatabaseFields (`Repo.LoadDatabaseFields`): states the file that the corrected ensure produces. It is the source's file except for an existing empty applications.csv, which the model gives the header.
- LoadDatabaseSteps (`Repo.LoadDatabaseSteps`): the applications step runs on the corrected file. Its outcome is the source's in every case, because an empty file and the header alone both load no applications.
- LoadedSnapshotIsValid (`Repo.LoadedSnapshotIsValid`): its invariant `applicationsFile != []` holds because of the corrected ensure. In the source an existing empty applications.csv stays empty, which is the case the Findings row describes.
- ApplicationsFile.RenderedLines: its contract states only the number of lines. Their content is stated by `RenderedLinesReadBack` and `ReloadRewritten`.
- The 8-digit id convention in the comments of `Candidate`, `Job` and `Company` is not enforced by the source and is not modelled.
- `ApplicationPolicy` is an interface; the dispatch function replaces it.

## Findings

| source | as written | input that shows it | evidently intended | confidence | as-written member | corrected member |
|---|---|---|---|---|---|---|
| src/model/Repository.java:216-229 | only a missing applications.csv gets the header; an existing empty file gets none, and `fileHeaderHasGrade` / `loadApplications` treat the first line as the header | applications.csv exists with 0 lines; one application is appended; the next load treats that line as the header and returns no applications | a missing or empty file starts with the four-column header, so every appended application is loaded back | not executed; high that the case is lost, medium that it was not intended | ApplicationsFile.EnsureApplicationsFileAsWritten, ApplicationsFile.EmptyFileLosesFirstApplication | ApplicationsFile.EnsureApplicationsFile, ApplicationsFile.EnsuredFileKeepsAppends |

The model's constructor (`Repo.Repository.Open`) uses the corrected `EnsureApplicationsFile`.
