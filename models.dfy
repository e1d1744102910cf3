/** The placement portal's tables: student and company profiles, jobs and
    applications, with their field defaults, the status choices of an
    application, lookups by key, the referential integrity the database keeps,
    and the deletions that `on_delete=CASCADE` propagates. */
module Models {
  import opened Common

  /** A primary or foreign key; the users of the authentication service are
      identified by one too. */
  type Id = nat

  /** The status choices declared on `Application.status`. */
  datatype StatusChoice = Applied | Shortlisted | Rejected | Selected {
    /** The string stored in the status column for this choice. */
    function Label(): string {
      match this
      case Applied => "Applied"
      case Shortlisted => "Shortlisted"
      case Rejected => "Rejected"
      case Selected => "Selected"
    }
  }

  const StatusChoices: seq<StatusChoice> := [Applied, Shortlisted, Rejected, Selected]

  /** The choice whose label is `s`, if any. The column itself is a plain
      string: choices are not enforced when a row is saved. */
  function ParseStatus(s: string): (r: Option<StatusChoice>)
    ensures r.Some? ==> r.value.Label() == s && r.value in StatusChoices
  {
    if s == "Applied" then Some(Applied)
    else if s == "Shortlisted" then Some(Shortlisted)
    else if s == "Rejected" then Some(Rejected)
    else if s == "Selected" then Some(Selected)
    else None
  }

  /** Every choice's label parses back to that choice, so the four labels are
      pairwise distinct. */
  lemma ParseLabel(c: StatusChoice)
    ensures ParseStatus(c.Label()) == Some(c)
  {
  }

  const DefaultApplicationStatus: string := Applied.Label()
  const DefaultPlacementStatus: string := "Eligible"
  const DefaultJobStatus: string := "Open"

  /** An application counts against the active limit while it is Applied or
      Shortlisted. */
  predicate IsActiveStatus(s: string) {
    s == Applied.Label() || s == Shortlisted.Label()
  }

  datatype StudentProfile = StudentProfile(id: Id, user: Id, branch: string, placementStatus: string)

  datatype CompanyProfile = CompanyProfile(id: Id, user: Id, companyName: string, domain: string, approved: bool)

  datatype Job = Job(id: Id, company: Id, title: string, package: string, details: string,
                     eligibleBranches: string, status: string)

  datatype Application = Application(id: Id, student: Id, job: Id, status: string)

  /** The four tables, each in primary-key order. */
  datatype Database = Database(students: seq<StudentProfile>, companies: seq<CompanyProfile>,
                               jobs: seq<Job>, applications: seq<Application>)

  /** A student profile created without a placement status gets the default. */
  function NewStudentProfile(id: Id, user: Id, branch: string): StudentProfile {
    StudentProfile(id, user, branch, DefaultPlacementStatus)
  }

  /** A job created without a status gets the default. */
  function NewJob(id: Id, company: Id, title: string, package: string, details: string,
                  eligibleBranches: string): Job {
    Job(id, company, title, package, details, eligibleBranches, DefaultJobStatus)
  }

  /** A new application row; its status is the default. */
  function NewApplication(id: Id, student: Id, job: Id): (r: Application)
    ensures ParseStatus(r.status) == Some(Applied)
    ensures IsActiveStatus(r.status) && r.status != Selected.Label()
  {
    assert DefaultApplicationStatus[0] != Selected.Label()[0];
    Application(id, student, job, DefaultApplicationStatus)
  }

  // Lookups by key, as `objects.get(...)` does them.

  function FindStudentByUser(students: seq<StudentProfile>, user: Id): (r: Option<StudentProfile>)
    ensures r.Some? ==> r.value in students && r.value.user == user
    ensures r.None? ==> forall p :: p in students ==> p.user != user
  {
    if |students| == 0 then None
    else if students[0].user == user then Some(students[0])
    else FindStudentByUser(students[1..], user)
  }

  function FindCompany(companies: seq<CompanyProfile>, id: Id): (r: Option<CompanyProfile>)
    ensures r.Some? ==> r.value in companies && r.value.id == id
    ensures r.None? ==> forall c :: c in companies ==> c.id != id
  {
    if |companies| == 0 then None
    else if companies[0].id == id then Some(companies[0])
    else FindCompany(companies[1..], id)
  }

  function FindJob(jobs: seq<Job>, id: Id): (r: Option<Job>)
    ensures r.Some? ==> r.value in jobs && r.value.id == id
    ensures r.None? ==> forall j :: j in jobs ==> j.id != id
  {
    if |jobs| == 0 then None
    else if jobs[0].id == id then Some(jobs[0])
    else FindJob(jobs[1..], id)
  }

  function FindApplication(apps: seq<Application>, id: Id): (r: Option<Application>)
    ensures r.Some? ==> r.value in apps && r.value.id == id
    ensures r.None? ==> forall a :: a in apps ==> a.id != id
  {
    if |apps| == 0 then None
    else if apps[0].id == id then Some(apps[0])
    else FindApplication(apps[1..], id)
  }

  predicate HasStudent(students: seq<StudentProfile>, id: Id) {
    exists p :: p in students && p.id == id
  }

  predicate HasCompany(companies: seq<CompanyProfile>, id: Id) {
    exists c :: c in companies && c.id == id
  }

  predicate HasJob(jobs: seq<Job>, id: Id) {
    exists j :: j in jobs && j.id == id
  }

  // What the database guarantees of every state: unique keys, one profile per
  // user, and foreign keys that resolve. Nothing makes (student, job) unique.

  predicate StudentKeysUnique(students: seq<StudentProfile>) {
    forall p, q :: p in students && q in students && (p.id == q.id || p.user == q.user) ==> p == q
  }

  predicate CompanyKeysUnique(companies: seq<CompanyProfile>) {
    forall c, d :: c in companies && d in companies && (c.id == d.id || c.user == d.user) ==> c == d
  }

  predicate JobKeysUnique(jobs: seq<Job>) {
    forall j, k :: j in jobs && k in jobs && j.id == k.id ==> j == k
  }

  /** Application rows are listed in increasing primary-key order. */
  predicate ApplicationIdsIncreasing(apps: seq<Application>) {
    forall i, j :: 0 <= i < j < |apps| ==> apps[i].id < apps[j].id
  }

  predicate ReferencesResolve(db: Database) {
    && (forall j :: j in db.jobs ==> HasCompany(db.companies, j.company))
    && (forall a :: a in db.applications ==> HasStudent(db.students, a.student) && HasJob(db.jobs, a.job))
  }

  predicate WellFormed(db: Database) {
    && StudentKeysUnique(db.students)
    && CompanyKeysUnique(db.companies)
    && JobKeysUnique(db.jobs)
    && ApplicationIdsIncreasing(db.applications)
    && ReferencesResolve(db)
  }

  /** Increasing keys are unique keys: a row is determined by its id. */
  lemma IncreasingIdsUnique(apps: seq<Application>)
    requires ApplicationIdsIncreasing(apps)
    ensures forall a, b :: a in apps && b in apps && a.id == b.id ==> a == b
  {
  }

  /** Deleting rows keeps the remaining ones in key order. */
  lemma {:induction false} FilterKeepsIdsIncreasing(apps: seq<Application>, p: Application -> bool)
    requires ApplicationIdsIncreasing(apps)
    ensures ApplicationIdsIncreasing(Filter(apps, p))
  {
    if |apps| > 0 {
      FilterKeepsIdsIncreasing(apps[1..], p);
      var tail := Filter(apps[1..], p);
      if p(apps[0]) {
        var r := [apps[0]] + tail;
        forall i, j | 0 <= i < j < |r|
          ensures r[i].id < r[j].id
        {
          if i == 0 {
            assert r[j] in tail;
            var k :| 0 <= k < |apps[1..]| && apps[1..][k] == r[j];
            assert apps[k + 1] == r[j];
          } else {
            assert r[i] == tail[i - 1] && r[j] == tail[j - 1];
          }
        }
      }
    }
  }

  /** A job created with a fresh key for an existing company keeps the
      database well formed, is found under its key, and is Open. */
  lemma NewJobKeepsWellFormed(db: Database, id: Id, company: Id, title: string, package: string,
                              details: string, eligibleBranches: string)
    requires WellFormed(db) && HasCompany(db.companies, company)
    requires forall j :: j in db.jobs ==> j.id != id
    ensures var job := NewJob(id, company, title, package, details, eligibleBranches);
            var after := db.(jobs := db.jobs + [job]);
            && WellFormed(after)
            && FindJob(after.jobs, id) == Some(job)
            && job.status == DefaultJobStatus
  {
    var job := NewJob(id, company, title, package, details, eligibleBranches);
    var after := db.(jobs := db.jobs + [job]);
    forall a | a in after.applications
      ensures HasJob(after.jobs, a.job)
    {
      var j :| j in db.jobs && j.id == a.job;
      assert j in after.jobs;
    }
    assert FindJob(db.jobs, id).None?;
    FindJobAppend(db.jobs, job);
  }

  lemma {:induction false} FindJobAppend(jobs: seq<Job>, job: Job)
    requires FindJob(jobs, job.id).None?
    ensures FindJob(jobs + [job], job.id) == Some(job)
  {
    if |jobs| == 0 {
      assert jobs + [job] == [job];
    } else {
      assert (jobs + [job])[1..] == jobs[1..] + [job];
      FindJobAppend(jobs[1..], job);
    }
  }

  // Cascading deletion (`on_delete=CASCADE`).

  function OtherThanStudent(id: Id): StudentProfile -> bool { (p: StudentProfile) => p.id != id }
  function OtherThanCompany(id: Id): CompanyProfile -> bool { (c: CompanyProfile) => c.id != id }
  function OtherThanJob(id: Id): Job -> bool { (j: Job) => j.id != id }
  function NotOfCompany(company: Id): Job -> bool { (j: Job) => j.company != company }
  function NotOfStudent(student: Id): Application -> bool { (a: Application) => a.student != student }
  function NotOfJob(job: Id): Application -> bool { (a: Application) => a.job != job }
  function NotOfJobs(jobIds: set<Id>): Application -> bool { (a: Application) => a.job !in jobIds }

  /** The ids of the jobs a company posted. */
  function JobIdsOf(jobs: seq<Job>, company: Id): set<Id> {
    set j | j in jobs && j.company == company :: j.id
  }

  /** Deleting a job deletes its applications. */
  function DeleteJobCascade(db: Database, job: Id): (r: Database)
    ensures r.students == db.students && r.companies == db.companies
    ensures forall j :: j in r.jobs <==> j in db.jobs && j.id != job
    ensures forall a :: a in r.applications <==> a in db.applications && a.job != job
  {
    db.(jobs := Filter(db.jobs, OtherThanJob(job)),
        applications := Filter(db.applications, NotOfJob(job)))
  }

  /** Deleting a student profile deletes its applications. */
  function DeleteStudentCascade(db: Database, student: Id): (r: Database)
    ensures r.companies == db.companies && r.jobs == db.jobs
    ensures forall p :: p in r.students <==> p in db.students && p.id != student
    ensures forall a :: a in r.applications <==> a in db.applications && a.student != student
  {
    db.(students := Filter(db.students, OtherThanStudent(student)),
        applications := Filter(db.applications, NotOfStudent(student)))
  }

  /** Deleting a company profile deletes its jobs and, through them, their
      applications. */
  function DeleteCompanyCascade(db: Database, company: Id): (r: Database)
    ensures r.students == db.students
    ensures forall c :: c in r.companies <==> c in db.companies && c.id != company
    ensures forall j :: j in r.jobs <==> j in db.jobs && j.company != company
  {
    db.(companies := Filter(db.companies, OtherThanCompany(company)),
        jobs := Filter(db.jobs, NotOfCompany(company)),
        applications := Filter(db.applications, NotOfJobs(JobIdsOf(db.jobs, company))))
  }

  /** A company's deletion removes exactly the applications to the jobs it
      posted. */
  lemma CompanyCascadeReachesApplications(db: Database, company: Id)
    ensures forall a :: a in DeleteCompanyCascade(db, company).applications <==>
      a in db.applications && !(exists j :: j in db.jobs && j.company == company && j.id == a.job)
  {
  }

  lemma JobCascadeKeepsWellFormed(db: Database, job: Id)
    requires WellFormed(db)
    ensures WellFormed(DeleteJobCascade(db, job))
  {
    var r := DeleteJobCascade(db, job);
    FilterKeepsIdsIncreasing(db.applications, NotOfJob(job));
    forall a | a in r.applications
      ensures HasStudent(r.students, a.student) && HasJob(r.jobs, a.job)
    {
      var j :| j in db.jobs && j.id == a.job;
      assert j in r.jobs;
    }
  }

  lemma StudentCascadeKeepsWellFormed(db: Database, student: Id)
    requires WellFormed(db)
    ensures WellFormed(DeleteStudentCascade(db, student))
  {
    var r := DeleteStudentCascade(db, student);
    FilterKeepsIdsIncreasing(db.applications, NotOfStudent(student));
    forall a | a in r.applications
      ensures HasStudent(r.students, a.student) && HasJob(r.jobs, a.job)
    {
      var p :| p in db.students && p.id == a.student;
      assert p in r.students;
    }
  }

  lemma CompanyCascadeKeepsWellFormed(db: Database, company: Id)
    requires WellFormed(db)
    ensures WellFormed(DeleteCompanyCascade(db, company))
  {
    var r := DeleteCompanyCascade(db, company);
    FilterKeepsIdsIncreasing(db.applications, NotOfJobs(JobIdsOf(db.jobs, company)));
    CompanyCascadeReachesApplications(db, company);
    forall j | j in r.jobs
      ensures HasCompany(r.companies, j.company)
    {
      var c :| c in db.companies && c.id == j.company;
      assert c in r.companies;
    }
    forall a | a in r.applications
      ensures HasStudent(r.students, a.student) && HasJob(r.jobs, a.job)
    {
      var j :| j in db.jobs && j.id == a.job;
      assert j in r.jobs;
    }
  }
}
