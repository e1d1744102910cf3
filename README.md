# Campus placement portal: the application lifecycle

This project models the part of a Django campus placement portal that has
rules worth stating: how the `Application` table evolves. Students apply to
jobs through a gate of ordered checks. The company that posted a job moves an
application to a new status, deleting duplicate rows for the same
(student, job) pair on the way. A superuser or the owning company deletes a
job, and the database cascades the deletion to its applications. The student
dashboard shows, for every job, the status of the student's application to it.

- `common.dfy` (module `Common`): an `Option` type and `Filter`, the
  order-preserving selection that an `objects.filter(...)` query performs, with
  its lemmas.
- `models.dfy` (module `Models`): the rows of `main/models.py` as datatypes
  (`StudentProfile`, `CompanyProfile`, `Job`, `Application`, and `Database` for
  the four tables), the status choices and field defaults, key lookups, the
  integrity every database state has (unique keys, one profile per user, foreign
  keys that resolve), and the three `on_delete=CASCADE` deletions as functions.
- `views.dfy` (module `Views`): the queries and the gate of `apply_job` as pure
  functions, the effect of `update_status` on the table as a function, the
  job-to-status map of the dashboard, and the class `PlacementPortal`. The
  class holds the four tables as `seq` fields. Its methods `ApplyJob`,
  `UpdateStatus`, `DeleteJob` and `StudentDashboard` are the four views.
- `season.dfy` (module `Season`): a client that plays one placement season
  against the class using only the methods' contracts. A student applies,
  applies again, is selected, applies elsewhere, and the company then deletes
  the job.

The authenticated user is a parameter `User(id, isSuperuser)`. Whether the user
is a student or a company is decided by looking for a profile that points at
the user, as the views do. The HTTP method is a boolean `post`. Each view's
response is an outcome datatype. `ErrorPage(reason)` stands for the rendered
error page, and `ShowApplicants(job)` for the redirect to the applicant list.

Behaviour of the code that the model keeps:

- `apply_job` looks up the job (a 404 if it is missing) after the student
  check and before the eligibility check. A request that is not a POST shows
  the form only after the eligibility check has passed.
- The new status in `update_status` is whatever the POST carried. No choice
  and no rule of the apply gate is re-checked, so a status update can give a
  student a third active application (`StatusUpdateIgnoresActiveLimit`). When
  the POST carries no `status` at all, the status is missing (`None`) and the
  save into the non-null column fails after the duplicates have been deleted.
  The model returns `SaveFailed` with only the deletion done; this takes each
  query to commit on its own, as Django does unless requests are wrapped in
  one transaction. A POST whose `status` is the empty string saves that string
  (`Some("")` in the model).
- `update_status` is open only to the user of the company that posted the
  job. A superuser is not let through there, while `delete_job` does let a
  superuser through.
- An authorised `delete_job` request that is not a POST returns no response
  at all. The model returns `NoResponse` and changes nothing.
- The second `student_dashboard` fetches the profile with `objects.get`, so a
  user without a student profile gets a server error (`DoesNotExist`). The
  model's `StudentDashboard` returns `None` for that user and changes nothing.
- The two application checks are separate queries: `Selected` rows do not
  count as active, but any of them refuses the request first.

## Model

| member | source | states |
|---|---|---|
| `Models.ParseStatus` | main/models.py:46-55 | a string parses to a status choice only if it is that choice's label, and the choice is one of the four declared |
| `Models.ParseLabel` | main/models.py:46-55 | each of Applied, Shortlisted, Rejected, Selected parses back from its label, so the four labels are distinct |
| `Models.NewApplication` | main/models.py:46-55 | a new row's default status is the declared choice Applied, which is active and not Selected |
| `Models.NewJobKeepsWellFormed` | main/models.py:28-35 | a job created with a fresh key for an existing company keeps the database well formed, is found under its key, and has the default status "Open" |
| `Models.FindStudentByUser` | main/views.py:116-121 | finds the profile of the user when there is one; None exactly when no profile points at the user |
| `Models.FindJob` | main/views.py:122 | finds a job with the key when one exists; None exactly when no job has it |
| `Models.FindApplication` | main/views.py:270 | finds the application with the key when one exists; None exactly when none has it |
| `Models.FindCompany` | main/views.py:273 | finds the company profile with the key when one exists; None exactly when none has it |
| `Models.DeleteJobCascade` | main/models.py:44 | deleting a job removes exactly that job and every application to it; profiles and all other rows stay |
| `Models.DeleteStudentCascade` | main/models.py:43 | deleting a student profile removes exactly that profile and its applications; companies and jobs stay |
| `Models.DeleteCompanyCascade` | main/models.py:29 | deleting a company profile removes exactly that company and the jobs it posted; students stay |
| `Models.CompanyCascadeReachesApplications` | main/models.py:29-44 | through its jobs, a company's deletion removes exactly the applications to jobs that company posted |
| `Models.JobCascadeKeepsWellFormed` | main/models.py:44 | after a job's cascade, keys stay unique, applications stay in key order and every foreign key still resolves |
| `Models.StudentCascadeKeepsWellFormed` | main/models.py:43 | the same integrity holds after a student profile's cascade |
| `Models.CompanyCascadeKeepsWellFormed` | main/models.py:29 | the same integrity holds after a company profile's cascade |
| `Views.PairRows` | main/views.py:150 | the rows of the query are exactly the rows linking that student to that job |
| `Views.HasSelectedMeaning` | main/views.py:133 | the Selected query is non-empty exactly when some row of the student has status "Selected" |
| `Views.ActiveCountStep` | main/views.py:139-142 | the active count of an empty table is 0, and a row adds one exactly when it is the student's and "Applied" or "Shortlisted" |
| `Views.ApplyGate` | main/views.py:113-165 | a request is admitted if and only if it is a POST by a student whose placement status is exactly "Eligible", for an existing job, with no Selected application, fewer than 2 active ones and no row for the pair; the admitted student is the user's profile |
| `Views.IneligibleRefusedFirst` | main/views.py:116-128 | a non-student is refused as not a student; a student who is not "Eligible" gets a 404 when the job is missing and is refused as not eligible otherwise; neither depends on the request method or the application table |
| `Views.FormShownOnGet` | main/views.py:125-165 | a request that is not a POST, from an "Eligible" student for an existing job, is shown the form whatever the application table holds |
| `Views.ActiveLimitRefused` | main/views.py:139-147 | an eligible student with no Selected application and 2 or more active ones is refused on a POST for the limit, before the rows for the pair are looked at |
| `Views.DuplicateRefused` | main/views.py:149-153 | a POST that passes the earlier checks but finds a row for the pair is refused as already applied |
| `Views.PlacedStudentRefused` | main/views.py:132-136 | an eligible student with any Selected application is refused as already selected, whatever the active count or rows for the pair |
| `Views.AdmissionKeepsLimits` | main/views.py:138-161 | an admitted request starts from at most 1 active application; the appended Applied row raises the count by one to at most 2, is the only row for its pair, is not Selected, and leaves every other student's count unchanged |
| `Views.GateIgnoresJobFields` | main/views.py:113-163 | replacing a job's company, title, package, details, eligible branches or status (default "Open") never changes the gate's verdict |
| `Views.NewStudentMayApply` | main/models.py:10 | a profile created by `NewStudentProfile`, with the default placement status and no applications, is admitted to any existing job |
| `Views.DuplicatePairAdmitted` | main/models.py:42-45 | a database with two rows for one (student, job) pair satisfies every integrity rule the schema has |
| `Views.WithStatus` | main/views.py:282-283 | saving a status keeps the table's length, gives the row with the key the new status and leaves every other row as it was |
| `Views.StatusUpdate` | main/views.py:280-283 | the table after the update is no longer than before, keeps every row of another pair, and holds only old rows or an old row with the target's key carrying the new status |
| `Views.StatusUpdateLeavesOneRow` | main/views.py:277-283 | after the transition exactly one row is left for the target's pair: the target, with the requested status (any string); every other pair keeps exactly its rows |
| `Views.StatusUpdateKeepsWellFormed` | main/views.py:280-283 | the transition keeps the database's integrity, and every row it leaves was there before, except the target with its new status |
| `Views.StatusUpdateIgnoresActiveLimit` | main/views.py:277-283 | a student with 2 active applications gets a third when a Rejected one is set back to Applied |
| `Views.OwnsJobMeaning` | main/views.py:273 | with unique keys, a user owns a job exactly when it is the user of the company profile the job points at |
| `Views.MayDeleteJobMeaning` | main/views.py:95 | a user may delete a job exactly when it is a superuser or the user of the company that posted the job |
| `Views.JobStatusMap` | main/views.py:303 | the map has an entry for a job exactly when some row is for that job |
| `Views.LastApplicationWins` | main/views.py:303 | a job has an entry in the status map exactly when one of the rows is for it, and the entry is the status of the last such row |
| `Views.PlacementPortal.ApplyJob` | main/views.py:113-165 | a refusal or the form leaves every table unchanged; an admission appends exactly one Applied row with a fresh key for the pair. Afterwards the student has at most 2 active applications and one row for the pair, and the store's integrity holds |
| `Views.PlacementPortal.UpdateStatus` | main/views.py:268-285 | an unknown key, a non-owner or a GET changes nothing; an owner's POST leaves one row for the pair with the requested status and every other pair's rows as they were |
| `Views.PlacementPortal.DeleteJob` | main/views.py:91-102 | a 404 when the job is missing; forbidden unless superuser or owner; an authorised POST applies the job's cascade and nothing else; every other case changes nothing |
| `Views.PlacementPortal.StudentDashboard` | main/views.py:294-313 | for a student, one row per job in table order, each carrying the status from the map of that student's applications, or None |

## Left out

- Logging in and out, sessions and `login_required`: the authenticated user is a parameter.
- Rendering, redirects and HTTP responses: each view returns an outcome value.
- Views.PlacementPortal.StudentDashboard: the server error that `objects.get` raises for a user without a student profile (main/views.py:296) is modelled as the result `None`, with no state change.
- Uploading and deleting resumes and training resources (`upload_resume`, `delete_resume`, `upload_resource`, `resource_list`, `delete_resource`, `student_resources`) and the `Resource` model: these are file-store input and output with no rule on the application table.
- The listing views `company_dashboard`, `admin_dashboard`, `view_applicants`, `view_students`, `view_companies` and the `staff_required` decorator: they only read.
- The first `student_dashboard` (main/views.py:37-46): the second definition replaces it in the module.
- `post_job`: creating jobs is not part of the lifecycle; a store starts from any well-formed database.
- `cgpa`, `min_cgpa`, `applied_date` and `uploaded_at`: floats and clock values that no rule reads.
- Resume field of `StudentProfile`: no modelled operation reads it. The `approved` flag of `CompanyProfile` is kept as a field, but no modelled operation reads it.
- Deleting a `User` and the cascade to its profile: users belong to the authentication service.
- `max_length` of the character columns: the model keeps status strings of any length.
- Concurrent requests: each view is one atomic step, so the race between two apply requests is not modelled.
- Duplicate copies of one row within a table: the key-uniqueness predicates compare row values, so a table listing the same row twice still counts as well formed, and the cascade contracts speak of membership, not of how many copies remain. A real table cannot hold such copies.
- Query order: a query without `order_by` is taken to return rows in key order, which decides which row is last in the dashboard map.
- main/urls.py is not part of this model.
