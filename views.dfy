/** The application lifecycle driven by the portal's views: the apply gate of
    `apply_job`, the status transition of `update_status`, the authorised
    cascade of `delete_job` and the job-to-status map of the student dashboard,
    over a store that holds the four tables. */
module Views {
  import opened Common
  import opened Models

  /** The authenticated user making a request. Whether the user is a student
      or a company is found by looking for a profile that points at it. */
  datatype User = User(id: Id, isSuperuser: bool)

  /** The placement status a student must have to apply. */
  const EligibleStatus: string := "Eligible"

  /** The most applications a student may have Applied or Shortlisted when
      applying again. */
  const ActiveLimit: nat := 2

  // The queries `apply_job` runs over the application table.

  function OfStudent(student: Id): Application -> bool {
    (a: Application) => a.student == student
  }

  function SelectedOf(student: Id): Application -> bool {
    (a: Application) => a.student == student && a.status == Selected.Label()
  }

  function ActiveOf(student: Id): Application -> bool {
    (a: Application) => a.student == student && IsActiveStatus(a.status)
  }

  function OfPair(student: Id, job: Id): Application -> bool {
    (a: Application) => a.student == student && a.job == job
  }

  /** The rows linking `student` to `job`; nothing keeps this to one row. */
  function PairRows(apps: seq<Application>, student: Id, job: Id): (r: seq<Application>)
    ensures |r| <= |apps|
    ensures forall a :: a in r <==> a in apps && a.student == student && a.job == job
  {
    Filter(apps, OfPair(student, job))
  }

  predicate HasSelected(apps: seq<Application>, student: Id) {
    Filter(apps, SelectedOf(student)) != []
  }

  function ActiveCount(apps: seq<Application>, student: Id): nat {
    |Filter(apps, ActiveOf(student))|
  }

  /** The `.exists()` query: some row of the student has status Selected. */
  lemma HasSelectedMeaning(apps: seq<Application>, student: Id)
    ensures HasSelected(apps, student) <==>
      exists a :: a in apps && a.student == student && a.status == Selected.Label()
  {
    var selected := Filter(apps, SelectedOf(student));
    if selected != [] {
      assert selected[0] in selected;
    }
  }

  /** The `.count()` query, row by row: an empty table counts nothing, and a
      row adds one exactly when it is the student's and Applied or
      Shortlisted. */
  lemma ActiveCountStep(apps: seq<Application>, row: Application, student: Id)
    ensures ActiveCount([], student) == 0
    ensures ActiveCount(apps + [row], student) ==
      ActiveCount(apps, student) + if row.student == student && IsActiveStatus(row.status) then 1 else 0
  {
    FilterAppend(apps, [row], ActiveOf(student));
    assert [row][1..] == [];
  }

  // The apply gate.

  datatype ApplyRejection =
    | NotStudent          // the user has no student profile
    | JobNotFound         // no job has the requested id
    | NotEligible         // placement status is not exactly "Eligible"
    | AlreadySelected     // some application of the student is Selected
    | ActiveLimitReached  // the student already has two active applications
    | AlreadyApplied      // a row for this (student, job) pair exists

  datatype ApplyVerdict = Refuse(reason: ApplyRejection) | ShowForm | Admit(student: StudentProfile)

  /** The checks of `apply_job`, in the order the view makes them; only a
      POST that passes all of them may write. */
  function ApplyGate(db: Database, user: User, job: Id, post: bool): (v: ApplyVerdict)
    ensures v.Admit? ==> v.student in db.students && v.student.user == user.id
    ensures v.Admit? <==>
      && post
      && FindStudentByUser(db.students, user.id).Some?
      && HasJob(db.jobs, job)
      && var s := FindStudentByUser(db.students, user.id).value;
         && s.placementStatus == EligibleStatus
         && !HasSelected(db.applications, s.id)
         && ActiveCount(db.applications, s.id) < ActiveLimit
         && PairRows(db.applications, s.id, job) == []
    ensures v.Admit? ==> v.student == FindStudentByUser(db.students, user.id).value
  {
    match FindStudentByUser(db.students, user.id)
    case None => Refuse(NotStudent)
    case Some(student) =>
      if FindJob(db.jobs, job).None? then Refuse(JobNotFound)
      else if student.placementStatus != EligibleStatus then Refuse(NotEligible)
      else if !post then ShowForm
      else if HasSelected(db.applications, student.id) then Refuse(AlreadySelected)
      else if ActiveCount(db.applications, student.id) >= ActiveLimit then Refuse(ActiveLimitReached)
      else if PairRows(db.applications, student.id, job) != [] then Refuse(AlreadyApplied)
      else Admit(student)
  }

  /** A user without a student profile, or a student who is not exactly
      "Eligible", is turned away before the request method or any application
      row is looked at. */
  lemma IneligibleRefusedFirst(db: Database, user: User, job: Id, post: bool,
                               otherApps: seq<Application>, otherPost: bool)
    requires FindStudentByUser(db.students, user.id).None? ||
             FindStudentByUser(db.students, user.id).value.placementStatus != EligibleStatus
    ensures FindStudentByUser(db.students, user.id).None? ==> ApplyGate(db, user, job, post) == Refuse(NotStudent)
    ensures FindStudentByUser(db.students, user.id).Some? && !HasJob(db.jobs, job) ==>
      ApplyGate(db, user, job, post) == Refuse(JobNotFound)
    ensures FindStudentByUser(db.students, user.id).Some? && HasJob(db.jobs, job) ==>
      ApplyGate(db, user, job, post) == Refuse(NotEligible)
    ensures ApplyGate(db, user, job, post) == ApplyGate(db.(applications := otherApps), user, job, otherPost)
  {
    if HasJob(db.jobs, job) {
      var j :| j in db.jobs && j.id == job;
    }
  }

  /** A request that is not a POST from an eligible student for an existing
      job is shown the application form, whatever the application table
      holds. */
  lemma FormShownOnGet(db: Database, user: User, job: Id)
    requires FindStudentByUser(db.students, user.id).Some?
    requires FindStudentByUser(db.students, user.id).value.placementStatus == EligibleStatus
    requires HasJob(db.jobs, job)
    ensures ApplyGate(db, user, job, false) == ShowForm
  {
    var j :| j in db.jobs && j.id == job;
  }

  /** A Selected application refuses every further POST of an eligible
      student, however many active applications or rows for the pair exist. */
  lemma PlacedStudentRefused(db: Database, user: User, job: Id)
    requires FindStudentByUser(db.students, user.id).Some?
    requires FindStudentByUser(db.students, user.id).value.placementStatus == EligibleStatus
    requires HasJob(db.jobs, job)
    requires HasSelected(db.applications, FindStudentByUser(db.students, user.id).value.id)
    ensures ApplyGate(db, user, job, true) == Refuse(AlreadySelected)
  {
  }

  /** An eligible student without a Selected application who already has two
      active applications is refused on a POST, before the rows for the pair
      are looked at. */
  lemma ActiveLimitRefused(db: Database, user: User, job: Id)
    requires FindStudentByUser(db.students, user.id).Some?
    requires FindStudentByUser(db.students, user.id).value.placementStatus == EligibleStatus
    requires HasJob(db.jobs, job)
    requires !HasSelected(db.applications, FindStudentByUser(db.students, user.id).value.id)
    requires ActiveCount(db.applications, FindStudentByUser(db.students, user.id).value.id) >= ActiveLimit
    ensures ApplyGate(db, user, job, true) == Refuse(ActiveLimitReached)
  {
    var j :| j in db.jobs && j.id == job;
  }

  /** A POST that passes every other check but finds a row for the pair is
      refused as a repeated application. */
  lemma DuplicateRefused(db: Database, user: User, job: Id)
    requires FindStudentByUser(db.students, user.id).Some?
    requires FindStudentByUser(db.students, user.id).value.placementStatus == EligibleStatus
    requires HasJob(db.jobs, job)
    requires !HasSelected(db.applications, FindStudentByUser(db.students, user.id).value.id)
    requires ActiveCount(db.applications, FindStudentByUser(db.students, user.id).value.id) < ActiveLimit
    requires PairRows(db.applications, FindStudentByUser(db.students, user.id).value.id, job) != []
    ensures ApplyGate(db, user, job, true) == Refuse(AlreadyApplied)
  {
    var j :| j in db.jobs && j.id == job;
  }

  /** An admitted POST starts from at most one active application and the row
      it appends makes at most two, is the only row for its pair, is not
      Selected, and leaves every other student's count alone. */
  lemma AdmissionKeepsLimits(db: Database, user: User, job: Id, post: bool, id: Id)
    requires ApplyGate(db, user, job, post).Admit?
    ensures var student := ApplyGate(db, user, job, post).student.id;
            var row := NewApplication(id, student, job);
            var after := db.applications + [row];
            && ActiveCount(db.applications, student) <= ActiveLimit - 1
            && ActiveCount(after, student) == ActiveCount(db.applications, student) + 1
            && ActiveCount(after, student) <= ActiveLimit
            && !HasSelected(after, student)
            && PairRows(after, student, job) == [row]
            && forall other :: other != student ==> ActiveCount(after, other) == ActiveCount(db.applications, other)
  {
    var student := ApplyGate(db, user, job, post).student.id;
    var row := NewApplication(id, student, job);
    assert IsActiveStatus(row.status);
    assert row.status != Selected.Label() by {
      assert row.status[0] != Selected.Label()[0];
    }
    FilterAppend(db.applications, [row], ActiveOf(student));
    FilterAppend(db.applications, [row], SelectedOf(student));
    FilterAppend(db.applications, [row], OfPair(student, job));
    forall other | other != student
      ensures ActiveCount(db.applications + [row], other) == ActiveCount(db.applications, other)
    {
      FilterAppend(db.applications, [row], ActiveOf(other));
    }
  }

  /** The gate looks a job up by id only: its company, title, package,
      details, eligible branches and status are never consulted. */
  lemma GateIgnoresJobFields(db: Database, user: User, job: Id, post: bool, k: nat, replacement: Job)
    requires k < |db.jobs| && replacement.id == db.jobs[k].id
    ensures ApplyGate(db.(jobs := db.jobs[k := replacement]), user, job, post) == ApplyGate(db, user, job, post)
  {
    var jobs' := db.jobs[k := replacement];
    assert FindJob(jobs', job).None? <==> FindJob(db.jobs, job).None? by {
      if FindJob(db.jobs, job).Some? {
        var i :| 0 <= i < |db.jobs| && db.jobs[i] == FindJob(db.jobs, job).value;
        assert jobs'[i].id == job;
      }
      if FindJob(jobs', job).Some? {
        var i :| 0 <= i < |jobs'| && jobs'[i] == FindJob(jobs', job).value;
        assert db.jobs[i].id == job;
      }
    }
  }

  /** A freshly created profile, which gets the default placement status,
      may apply to any existing job while it has no applications. */
  lemma NewStudentMayApply(db: Database, id: Id, user: User, branch: string, job: Id)
    requires WellFormed(db)
    requires NewStudentProfile(id, user.id, branch) in db.students
    requires forall a :: a in db.applications ==> a.student != id
    requires HasJob(db.jobs, job)
    ensures ApplyGate(db, user, job, true) == Admit(NewStudentProfile(id, user.id, branch))
  {
    var profile := NewStudentProfile(id, user.id, branch);
    var found := FindStudentByUser(db.students, user.id);
    assert found == Some(profile);
    FilterNone(db.applications, SelectedOf(id));
    FilterNone(db.applications, ActiveOf(id));
    FilterNone(db.applications, OfPair(id, job));
  }

  /** Nothing in the schema makes (student, job) unique: a well-formed
      database may hold two rows for one pair. */
  lemma DuplicatePairAdmitted()
    ensures var db := Database([NewStudentProfile(1, 10, "CSE")],
                               [CompanyProfile(1, 20, "Acme", "Software", false)],
                               [NewJob(1, 1, "Engineer", "10 LPA", "Backend", "CSE")],
                               [NewApplication(1, 1, 1), NewApplication(2, 1, 1)]);
            WellFormed(db) && |PairRows(db.applications, 1, 1)| == 2
  {
    var db := Database([NewStudentProfile(1, 10, "CSE")],
                       [CompanyProfile(1, 20, "Acme", "Software", false)],
                       [NewJob(1, 1, "Engineer", "10 LPA", "Backend", "CSE")],
                       [NewApplication(1, 1, 1), NewApplication(2, 1, 1)]);
    assert db.companies[0] in db.companies && db.students[0] in db.students && db.jobs[0] in db.jobs;
    assert ReferencesResolve(db);
    FilterAll(db.applications, OfPair(1, 1));
    assert PairRows(db.applications, 1, 1) == db.applications;
  }

  // The status transition.

  /** Keeps the target row and every row of another (student, job) pair. */
  function KeepsOnly(target: Application): Application -> bool {
    (a: Application) => a.id == target.id || a.student != target.student || a.job != target.job
  }

  /** Saving a new status on the row with key `id`: that row gets the status,
      every other row stays as it is. */
  function WithStatus(apps: seq<Application>, id: Id, status: string): (r: seq<Application>)
    ensures |r| == |apps|
    ensures forall i :: 0 <= i < |apps| ==>
      r[i] == if apps[i].id == id then apps[i].(status := status) else apps[i]
  {
    if |apps| == 0 then []
    else [if apps[0].id == id then apps[0].(status := status) else apps[0]] + WithStatus(apps[1..], id, status)
  }

  /** The application table after an authorised POST to `update_status` on
      `target`: the other rows of its pair are deleted first; then the status
      is saved, unless the request carried none, in which case the save fails
      and only the deletion has happened. */
  function StatusUpdate(apps: seq<Application>, target: Application, newStatus: Option<string>): (r: seq<Application>)
    ensures |r| <= |apps|
    ensures forall a :: a in apps && a.id != target.id && (a.student != target.student || a.job != target.job) ==> a in r
    ensures forall a :: a in r ==>
      (a in apps || (newStatus.Some? && exists b :: b in apps && b.id == target.id && a == b.(status := newStatus.value)))
  {
    var kept := Filter(apps, KeepsOnly(target));
    match newStatus
    case None => kept
    case Some(s) =>
      WithStatusMembers(kept, target.id, s);
      WithStatus(kept, target.id, s)
  }

  /** Saving a status keeps every row with another key and changes no row
      into anything but an old row with the new status. */
  lemma WithStatusMembers(apps: seq<Application>, id: Id, status: string)
    ensures forall a :: a in apps && a.id != id ==> a in WithStatus(apps, id, status)
    ensures forall a :: a in WithStatus(apps, id, status) ==>
      (a in apps || exists b :: b in apps && b.id == id && a == b.(status := status))
  {
    var w := WithStatus(apps, id, status);
    forall a | a in apps && a.id != id
      ensures a in w
    {
      var i :| 0 <= i < |apps| && apps[i] == a;
      assert w[i] == a;
    }
    forall a | a in w
      ensures a in apps || exists b :: b in apps && b.id == id && a == b.(status := status)
    {
      var i :| 0 <= i < |w| && w[i] == a;
      assert apps[i] in apps;
    }
  }

  lemma {:induction false} KeptPairRows(apps: seq<Application>, target: Application)
    requires ApplicationIdsIncreasing(apps) && target in apps
    ensures PairRows(Filter(apps, KeepsOnly(target)), target.student, target.job) == [target]
  {
    var keep := KeepsOnly(target);
    var pair := OfPair(target.student, target.job);
    var rest := apps[1..];
    assert ApplicationIdsIncreasing(rest);
    var keptRest := Filter(rest, keep);
    if apps[0] == target {
      forall a | a in keptRest
        ensures !pair(a)
      {
        var k :| 0 <= k < |rest| && rest[k] == a;
        assert apps[k + 1] == a;
      }
      FilterNone(keptRest, pair);
      var r := [target] + keptRest;
      assert r[0] == target && r[1..] == keptRest;
    } else {
      var k :| 0 <= k < |apps| && apps[k] == target;
      assert k > 0 && target in rest;
      KeptPairRows(rest, target);
      if keep(apps[0]) {
        var r := [apps[0]] + keptRest;
        assert r[0] == apps[0] && r[1..] == keptRest;
      }
    }
  }

  lemma {:induction false} PairRowsWithStatus(s: seq<Application>, id: Id, status: string, student: Id, job: Id)
    ensures PairRows(WithStatus(s, id, status), student, job) == WithStatus(PairRows(s, student, job), id, status)
  {
    if |s| > 0 {
      PairRowsWithStatus(s[1..], id, status, student, job);
      var w := WithStatus(s, id, status);
      assert w[0] == (if s[0].id == id then s[0].(status := status) else s[0]);
      assert w[1..] == WithStatus(s[1..], id, status);
      var f := PairRows(s, student, job);
      if OfPair(student, job)(s[0]) {
        assert f[0] == s[0] && f[1..] == PairRows(s[1..], student, job);
        var g := WithStatus(f, id, status);
        assert g == [g[0]] + g[1..];
        assert g[1..] == WithStatus(f[1..], id, status);
      }
    }
  }

  lemma WithStatusAbsent(s: seq<Application>, id: Id, status: string)
    requires forall a :: a in s ==> a.id != id
    ensures WithStatus(s, id, status) == s
  {
  }

  /** After the transition exactly one row is left for the target's pair: the
      target itself, with the requested status (any string at all); the rows of
      every other pair are exactly what they were. */
  lemma StatusUpdateLeavesOneRow(apps: seq<Application>, target: Application, newStatus: Option<string>)
    requires ApplicationIdsIncreasing(apps) && target in apps
    ensures PairRows(StatusUpdate(apps, target, newStatus), target.student, target.job) ==
            [if newStatus.Some? then target.(status := newStatus.value) else target]
    ensures forall student, job :: student != target.student || job != target.job ==>
            PairRows(StatusUpdate(apps, target, newStatus), student, job) == PairRows(apps, student, job)
  {
    var kept := Filter(apps, KeepsOnly(target));
    KeptPairRows(apps, target);
    IncreasingIdsUnique(apps);
    forall student, job | student != target.student || job != target.job
      ensures PairRows(StatusUpdate(apps, target, newStatus), student, job) == PairRows(apps, student, job)
    {
      FilterStronger(apps, KeepsOnly(target), OfPair(student, job));
      if newStatus.Some? {
        PairRowsWithStatus(kept, target.id, newStatus.value, student, job);
        WithStatusAbsent(PairRows(apps, student, job), target.id, newStatus.value);
      }
    }
    if newStatus.Some? {
      PairRowsWithStatus(kept, target.id, newStatus.value, target.student, target.job);
    }
  }

  /** The transition keeps the database well formed; every row it leaves was
      there before, except the target with its new status. */
  lemma StatusUpdateKeepsWellFormed(db: Database, target: Application, newStatus: Option<string>)
    requires WellFormed(db) && target in db.applications
    ensures WellFormed(db.(applications := StatusUpdate(db.applications, target, newStatus)))
    ensures forall a :: a in StatusUpdate(db.applications, target, newStatus) ==>
      a in db.applications || (newStatus.Some? && a == target.(status := newStatus.value))
  {
    var kept := Filter(db.applications, KeepsOnly(target));
    FilterKeepsIdsIncreasing(db.applications, KeepsOnly(target));
    var r := StatusUpdate(db.applications, target, newStatus);
    forall a | a in r
      ensures a in db.applications || (newStatus.Some? && a == target.(status := newStatus.value))
      ensures HasStudent(db.students, a.student) && HasJob(db.jobs, a.job)
    {
      var i :| 0 <= i < |r| && r[i] == a;
      assert kept[i] in kept;
    }
  }

  /** A status update never re-checks the apply rules: it can give a student
      a third active application. */
  lemma StatusUpdateIgnoresActiveLimit()
    ensures var apps := [Application(1, 7, 1, "Applied"), Application(2, 7, 2, "Shortlisted"),
                         Application(3, 7, 3, "Rejected")];
            && ActiveCount(apps, 7) == ActiveLimit
            && ActiveCount(StatusUpdate(apps, apps[2], Some("Applied")), 7) == ActiveLimit + 1
  {
    var apps := [Application(1, 7, 1, "Applied"), Application(2, 7, 2, "Shortlisted"),
                 Application(3, 7, 3, "Rejected")];
    var active := apps[..2];
    assert apps == active + [apps[2]];
    assert !IsActiveStatus(apps[2].status) by {
      assert "Rejected"[0] != "Applied"[0] && "Rejected"[0] != "Shortlisted"[0];
    }
    FilterAppend(active, [apps[2]], ActiveOf(7));
    FilterAll(active, ActiveOf(7));
    FilterNone([apps[2]], ActiveOf(7));
    FilterAll(apps, KeepsOnly(apps[2]));
    var after := WithStatus(apps, 3, "Applied");
    assert after == StatusUpdate(apps, apps[2], Some("Applied"));
    assert after == [apps[0], apps[1], Application(3, 7, 3, "Applied")];
    FilterAll(after, ActiveOf(7));
  }

  // Ownership.

  /** Whether `user` is the user of the company that posted job `job`. */
  predicate OwnsJob(db: Database, user: Id, job: Id) {
    match FindJob(db.jobs, job)
    case None => false
    case Some(j) =>
      match FindCompany(db.companies, j.company)
      case None => false
      case Some(c) => c.user == user
  }

  predicate MayDeleteJob(db: Database, user: User, job: Id) {
    user.isSuperuser || OwnsJob(db, user.id, job)
  }

  /** With unique keys, owning a job means being the user of the company
      profile that the job's foreign key points at. */
  lemma OwnsJobMeaning(db: Database, user: Id, job: Id)
    requires JobKeysUnique(db.jobs) && CompanyKeysUnique(db.companies)
    ensures OwnsJob(db, user, job) <==>
      exists j, c :: j in db.jobs && c in db.companies && j.id == job && c.id == j.company && c.user == user
  {
    if exists j, c :: j in db.jobs && c in db.companies && j.id == job && c.id == j.company && c.user == user {
      var j, c :| j in db.jobs && c in db.companies && j.id == job && c.id == j.company && c.user == user;
      assert FindJob(db.jobs, job) == Some(j);
      assert FindCompany(db.companies, j.company) == Some(c);
    }
  }

  /** A superuser may delete any job; anyone else only a job their company
      posted. */
  lemma MayDeleteJobMeaning(db: Database, user: User, job: Id)
    requires JobKeysUnique(db.jobs) && CompanyKeysUnique(db.companies)
    ensures MayDeleteJob(db, user, job) <==>
      user.isSuperuser ||
      exists j, c :: j in db.jobs && c in db.companies && j.id == job && c.id == j.company && c.user == user.id
  {
    OwnsJobMeaning(db, user.id, job);
  }

  // The student dashboard.

  /** The map built by `{app.job.id: app.status for app in apps}`: each row in
      turn sets its job's entry, so later rows overwrite earlier ones. */
  function JobStatusMap(apps: seq<Application>): (m: map<Id, string>)
    ensures forall k :: k in m <==> exists a :: a in apps && a.job == k
  {
    if |apps| == 0 then map[]
    else
      assert forall a :: a in apps <==> a in apps[..|apps| - 1] || a == apps[|apps| - 1] by {
        assert apps == apps[..|apps| - 1] + [apps[|apps| - 1]];
      }
      JobStatusMap(apps[..|apps| - 1])[apps[|apps| - 1].job := apps[|apps| - 1].status]
  }

  /** `m.get(k, None)`. */
  function Lookup(m: map<Id, string>, k: Id): Option<string> {
    if k in m then Some(m[k]) else None
  }

  /** The entry of a job is the status of the last row for it. */
  lemma {:induction false} LastRowSetsEntry(apps: seq<Application>, job: Id)
    requires job in JobStatusMap(apps)
    ensures exists i :: 0 <= i < |apps| && apps[i].job == job && JobStatusMap(apps)[job] == apps[i].status &&
                        forall k :: i < k < |apps| ==> apps[k].job != job
  {
    var n := |apps| - 1;
    var init := apps[..n];
    if apps[n].job == job {
      assert JobStatusMap(apps)[job] == apps[n].status;
    } else {
      assert JobStatusMap(apps) == JobStatusMap(init)[apps[n].job := apps[n].status];
      LastRowSetsEntry(init, job);
      var i :| 0 <= i < |init| && init[i].job == job && JobStatusMap(init)[job] == init[i].status &&
        forall k :: i < k < |init| ==> init[k].job != job;
      assert apps[i] == init[i];
      forall k | i < k < |apps|
        ensures apps[k].job != job
      {
        if k < n {
          assert apps[k] == init[k];
        }
      }
    }
  }

  /** A job has an entry exactly when some row is for it, and the entry is
      the status of the last such row. */
  lemma LastApplicationWins(apps: seq<Application>, job: Id)
    ensures job in JobStatusMap(apps) <==> exists i :: 0 <= i < |apps| && apps[i].job == job
    ensures job in JobStatusMap(apps) ==>
      exists i :: 0 <= i < |apps| && apps[i].job == job && JobStatusMap(apps)[job] == apps[i].status &&
        forall k :: i < k < |apps| ==> apps[k].job != job
  {
    if exists i :: 0 <= i < |apps| && apps[i].job == job {
      var i :| 0 <= i < |apps| && apps[i].job == job;
      assert apps[i] in apps;
    }
    if job in JobStatusMap(apps) {
      LastRowSetsEntry(apps, job);
    }
  }

  datatype DashboardRow = DashboardRow(job: Job, applicationStatus: Option<string>)

  datatype ApplyOutcome = ErrorPage(reason: ApplyRejection) | FormShown | Created(application: Application)

  datatype StatusOutcome =
    | ApplicationNotFound
    | Unauthorized
    | SaveFailed                // the request carried no status: the save is refused
    | ShowApplicants(job: Id)   // redirect to the job's applicant list

  datatype DeleteOutcome =
    | NoSuchJob
    | Forbidden
    | NoResponse                // an authorised request that is not a POST
    | JobDeleted

  /** The database the views share, one table per field. */
  class PlacementPortal {
    var students: seq<StudentProfile>
    var companies: seq<CompanyProfile>
    var jobs: seq<Job>
    var applications: seq<Application>
    /** The key the next application row receives. */
    var nextApplicationId: Id

    function Snapshot(): Database
      reads this
    {
      Database(students, companies, jobs, applications)
    }

    predicate Valid()
      reads this
    {
      WellFormed(Snapshot()) && forall a :: a in applications ==> a.id < nextApplicationId
    }

    constructor (db: Database)
      requires WellFormed(db)
      ensures Valid() && Snapshot() == db
      ensures nextApplicationId == if |db.applications| == 0 then 1 else db.applications[|db.applications| - 1].id + 1
    {
      students, companies, jobs, applications := db.students, db.companies, db.jobs, db.applications;
      nextApplicationId := if |db.applications| == 0 then 1 else db.applications[|db.applications| - 1].id + 1;
      new;
      forall a | a in applications
        ensures a.id < nextApplicationId
      {
        var i :| 0 <= i < |applications| && applications[i] == a;
      }
    }

    /** `apply_job`: run the gate and, if it admits the request, append one
        Applied row for the (student, job) pair. */
    method ApplyJob(user: User, job: Id, post: bool) returns (outcome: ApplyOutcome)
      requires Valid()
      modifies this
      ensures Valid()
      ensures students == old(students) && companies == old(companies) && jobs == old(jobs)
      ensures match ApplyGate(old(Snapshot()), user, job, post)
        case Refuse(reason) =>
          outcome == ErrorPage(reason) && applications == old(applications) && nextApplicationId == old(nextApplicationId)
        case ShowForm =>
          outcome == FormShown && applications == old(applications) && nextApplicationId == old(nextApplicationId)
        case Admit(student) =>
          && outcome == Created(NewApplication(old(nextApplicationId), student.id, job))
          && applications == old(applications) + [outcome.application]
          && nextApplicationId == old(nextApplicationId) + 1
      ensures outcome.Created? ==>
        && ActiveCount(old(applications), outcome.application.student) < ActiveLimit
        && ActiveCount(applications, outcome.application.student) <= ActiveLimit
        && PairRows(applications, outcome.application.student, job) == [outcome.application]
    {
      var verdict := ApplyGate(Snapshot(), user, job, post);
      match verdict
      case Refuse(reason) =>
        outcome := ErrorPage(reason);
      case ShowForm =>
        outcome := FormShown;
      case Admit(student) =>
        AdmissionKeepsLimits(Snapshot(), user, job, post, nextApplicationId);
        var row := NewApplication(nextApplicationId, student.id, job);
        applications := applications + [row];
        nextApplicationId := nextApplicationId + 1;
        outcome := Created(row);
    }

    /** `update_status`: the company that posted the job deletes the other
        rows of the target's pair, then saves the requested status. */
    method UpdateStatus(user: User, application: Id, post: bool, newStatus: Option<string>)
      returns (outcome: StatusOutcome)
      requires Valid()
      modifies this
      ensures Valid()
      ensures students == old(students) && companies == old(companies) && jobs == old(jobs)
      ensures nextApplicationId == old(nextApplicationId)
      ensures match FindApplication(old(applications), application)
        case None =>
          outcome == ApplicationNotFound && applications == old(applications)
        case Some(target) =>
          if !OwnsJob(old(Snapshot()), user.id, target.job) then
            outcome == Unauthorized && applications == old(applications)
          else if !post then
            outcome == ShowApplicants(target.job) && applications == old(applications)
          else
            && applications == StatusUpdate(old(applications), target, newStatus)
            && outcome == if newStatus.None? then SaveFailed else ShowApplicants(target.job)
      ensures post && outcome.ShowApplicants? && newStatus.Some? ==>
        var target := FindApplication(old(applications), application).value;
        && PairRows(applications, target.student, target.job) == [target.(status := newStatus.value)]
        && forall student, job :: student != target.student || job != target.job ==>
             PairRows(applications, student, job) == PairRows(old(applications), student, job)
    {
      var found := FindApplication(applications, application);
      if found.None? {
        return ApplicationNotFound;
      }
      var target := found.value;
      if !OwnsJob(Snapshot(), user.id, target.job) {
        return Unauthorized;
      }
      if !post {
        return ShowApplicants(target.job);
      }
      StatusUpdateKeepsWellFormed(Snapshot(), target, newStatus);
      StatusUpdateLeavesOneRow(applications, target, newStatus);
      applications := Filter(applications, KeepsOnly(target));
      if newStatus.None? {
        return SaveFailed;
      }
      applications := WithStatus(applications, target.id, newStatus.value);
      outcome := ShowApplicants(target.job);
    }

    /** `delete_job`: a superuser or the company that posted the job deletes
        it, and with it every application to it. */
    method DeleteJob(user: User, job: Id, post: bool) returns (outcome: DeleteOutcome)
      requires Valid()
      modifies this
      ensures Valid()
      ensures nextApplicationId == old(nextApplicationId)
      ensures outcome == NoSuchJob <==> !HasJob(old(jobs), job)
      ensures outcome == Forbidden <==> HasJob(old(jobs), job) && !MayDeleteJob(old(Snapshot()), user, job)
      ensures outcome == NoResponse <==> HasJob(old(jobs), job) && MayDeleteJob(old(Snapshot()), user, job) && !post
      ensures outcome == JobDeleted <==> HasJob(old(jobs), job) && MayDeleteJob(old(Snapshot()), user, job) && post
      ensures outcome == JobDeleted ==> Snapshot() == DeleteJobCascade(old(Snapshot()), job)
      ensures outcome != JobDeleted ==> Snapshot() == old(Snapshot())
    {
      if FindJob(jobs, job).None? {
        return NoSuchJob;
      }
      if !MayDeleteJob(Snapshot(), user, job) {
        return Forbidden;
      }
      if !post {
        return NoResponse;
      }
      JobCascadeKeepsWellFormed(Snapshot(), job);
      var after := DeleteJobCascade(Snapshot(), job);
      jobs, applications := after.jobs, after.applications;
      outcome := JobDeleted;
    }

    /** The second `student_dashboard`: every job, each with the status of the
        student's application to it, if any; None when the user has no
        student profile. */
    method StudentDashboard(user: User) returns (rows: Option<seq<DashboardRow>>)
      ensures rows.None? <==> FindStudentByUser(students, user.id).None?
      ensures rows.Some? ==>
        var statuses := JobStatusMap(Filter(applications, OfStudent(FindStudentByUser(students, user.id).value.id)));
        && |rows.value| == |jobs|
        && forall i :: 0 <= i < |jobs| ==>
             rows.value[i] == DashboardRow(jobs[i], Lookup(statuses, jobs[i].id))
    {
      var found := FindStudentByUser(students, user.id);
      if found.None? {
        return None;
      }
      var statuses := JobStatusMap(Filter(applications, OfStudent(found.value.id)));
      var result: seq<DashboardRow> := [];
      for i := 0 to |jobs|
        invariant |result| == i
        invariant forall k :: 0 <= k < i ==> result[k] == DashboardRow(jobs[k], Lookup(statuses, jobs[k].id))
      {
        result := result + [DashboardRow(jobs[i], Lookup(statuses, jobs[i].id))];
      }
      rows := Some(result);
    }
  }
}
