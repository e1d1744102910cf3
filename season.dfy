/** A placement season played against the store, as a client that knows only
    the contracts of the views: a student applies, applies again to the same
    job, is selected by the company (a stranger's attempt is refused), applies
    elsewhere, and the company deletes the job. Each step is its own method
    over literal before and after states. */
module Season {
  import opened Common
  import opened Models
  import opened Views

  const StudentUser := User(10, false)
  const CompanyUser := User(20, false)
  const Student := NewStudentProfile(1, StudentUser.id, "CSE")
  const Company := CompanyProfile(1, CompanyUser.id, "Acme", "Software", true)
  const FirstJob := NewJob(1, Company.id, "Engineer", "10 LPA", "Backend", "CSE")
  const SecondJob := NewJob(2, Company.id, "Analyst", "8 LPA", "Data", "CSE")
  const FirstApplication := NewApplication(1, Student.id, FirstJob.id)
  const SelectedApplication := FirstApplication.(status := Selected.Label())

  function Tables(apps: seq<Application>): Database {
    Database([Student], [Company], [FirstJob, SecondJob], apps)
  }

  predicate At(portal: PlacementPortal, apps: seq<Application>, next: Id)
    reads portal
  {
    portal.Valid() && portal.Snapshot() == Tables(apps) && portal.nextApplicationId == next
  }

  method Apply(portal: PlacementPortal) returns (outcome: ApplyOutcome)
    requires At(portal, [], 1)
    modifies portal
    ensures outcome == Created(FirstApplication) && At(portal, [FirstApplication], 2)
  {
    assert HasJob(portal.jobs, FirstJob.id) by { assert FirstJob in portal.jobs; }
    NewStudentMayApply(portal.Snapshot(), Student.id, StudentUser, "CSE", FirstJob.id);
    outcome := portal.ApplyJob(StudentUser, FirstJob.id, true);
  }

  method ApplyAgain(portal: PlacementPortal) returns (outcome: ApplyOutcome)
    requires At(portal, [FirstApplication], 2)
    modifies portal
    ensures outcome == ErrorPage(AlreadyApplied) && At(portal, [FirstApplication], 2)
  {
    assert FirstApplication.status[0] != Selected.Label()[0];
    FilterNone(portal.applications, SelectedOf(Student.id));
    assert FirstApplication in PairRows(portal.applications, Student.id, FirstJob.id);
    outcome := portal.ApplyJob(StudentUser, FirstJob.id, true);
  }

  method StrangerUpdates(portal: PlacementPortal) returns (outcome: StatusOutcome)
    requires At(portal, [FirstApplication], 2)
    modifies portal
    ensures outcome == Unauthorized && At(portal, [FirstApplication], 2)
  {
    assert FindJob(portal.jobs, FirstJob.id) == Some(FirstJob);
    assert FindCompany(portal.companies, Company.id) == Some(Company);
    outcome := portal.UpdateStatus(StudentUser, FirstApplication.id, true, Some(Selected.Label()));
  }

  method CompanySelects(portal: PlacementPortal) returns (outcome: StatusOutcome)
    requires At(portal, [FirstApplication], 2)
    modifies portal
    ensures outcome == ShowApplicants(FirstJob.id) && At(portal, [SelectedApplication], 2)
  {
    assert FindJob(portal.jobs, FirstJob.id) == Some(FirstJob);
    assert FindCompany(portal.companies, Company.id) == Some(Company);
    FilterAll(portal.applications, KeepsOnly(FirstApplication));
    outcome := portal.UpdateStatus(CompanyUser, FirstApplication.id, true, Some(Selected.Label()));
    assert portal.applications == WithStatus([FirstApplication], FirstApplication.id, Selected.Label());
  }

  method ApplyElsewhere(portal: PlacementPortal) returns (outcome: ApplyOutcome)
    requires At(portal, [SelectedApplication], 2)
    modifies portal
    ensures outcome == ErrorPage(AlreadySelected) && At(portal, [SelectedApplication], 2)
  {
    assert HasJob(portal.jobs, SecondJob.id) by { assert SecondJob in portal.jobs; }
    assert SelectedApplication in Filter(portal.applications, SelectedOf(Student.id));
    outcome := portal.ApplyJob(StudentUser, SecondJob.id, true);
  }

  method CompanyDeletesJob(portal: PlacementPortal) returns (outcome: DeleteOutcome)
    requires At(portal, [SelectedApplication], 2)
    modifies portal
    ensures outcome == JobDeleted
    ensures portal.jobs == [SecondJob] && portal.applications == []
  {
    assert HasJob(portal.jobs, FirstJob.id) by { assert FirstJob in portal.jobs; }
    assert FindJob(portal.jobs, FirstJob.id) == Some(FirstJob);
    assert FindCompany(portal.companies, Company.id) == Some(Company);
    outcome := portal.DeleteJob(CompanyUser, FirstJob.id, true);
    FilterNone([SelectedApplication], NotOfJob(FirstJob.id));
    assert portal.jobs == Filter([FirstJob, SecondJob], OtherThanJob(FirstJob.id));
  }

  method PlacementSeason() {
    var db := Tables([]);
    assert HasCompany(db.companies, Company.id) by { assert Company in db.companies; }
    var portal := new PlacementPortal(db);
    var applied := Apply(portal);
    var again := ApplyAgain(portal);
    var stranger := StrangerUpdates(portal);
    var selected := CompanySelects(portal);
    var elsewhere := ApplyElsewhere(portal);
    var deleted := CompanyDeletesJob(portal);
    assert applied.Created? && again == ErrorPage(AlreadyApplied) && elsewhere == ErrorPage(AlreadySelected);
    assert portal.applications == [];
  }
}
