/**
 * The JobApplication schema (models/JobApplication.js) as a validator.
 *
 * A candidate document carries every schema path as an optional value (absent = `undefined`
 * in the request body).  Mongoose's `required` check on a String path fails on a missing
 * value and on the empty string; on a Date path it fails on a missing value.  The `status`
 * path must also be one of four names.  `uuid` defaults to a freshly generated value, which
 * is passed in because uuid generation is not modelled.
 *
 * `serialNo` is NOT a path of the schema; the route code nevertheless reads and writes it,
 * and this model follows the route code and carries it as a field of every stored record.
 */
module JobApplicationModel {
  import opened Wrappers

  /** Database identities (ObjectIds) are opaque; naturals stand for them. */
  type UserId = nat
  type DocId = nat
  /** A date as milliseconds since the epoch; parsing and formatting are not modelled. */
  type Timestamp = int

  datatype Status = Applied | Interviewed | Offered | Rejected

  /** The four names the schema's `enum` admits. */
  function StatusName(s: Status): (name: string)
    ensures ParseStatus(name) == Some(s)
  {
    match s
    case Applied => "applied"
    case Interviewed => "interviewed"
    case Offered => "offered"
    case Rejected => "rejected"
  }

  /** The enum check: a text is a status exactly when it is one of the four names. */
  function ParseStatus(text: string): (r: Option<Status>)
    ensures r.Some? <==> (text == "applied" || text == "interviewed" || text == "offered" || text == "rejected")
  {
    if text == "applied" then Some(Applied)
    else if text == "interviewed" then Some(Interviewed)
    else if text == "offered" then Some(Offered)
    else if text == "rejected" then Some(Rejected)
    else None
  }

  /** A stored job application (a document that passed validation). */
  datatype JobApplication = JobApplication(
    id: DocId,
    user: UserId,
    serialNo: int,
    company: string,
    jobTitle: string,
    applicationDate: Timestamp,
    status: Status,
    followUpDate: Option<Timestamp>,
    location: string,
    industry: Option<string>,
    uuid: string)

  /** What the schema demands of the required String paths of a stored record. */
  predicate WellFormed(a: JobApplication) {
    a.company != "" && a.jobTitle != "" && a.location != ""
  }

  /** A document about to be saved, before validation and defaults. */
  datatype Candidate = Candidate(
    user: Option<UserId>,
    company: Option<string>,
    jobTitle: Option<string>,
    applicationDate: Option<Timestamp>,
    status: Option<string>,
    followUpDate: Option<Timestamp>,
    location: Option<string>,
    industry: Option<string>,
    uuid: Option<string>)

  /** Mongoose's `required` test for a String path. */
  predicate Filled(s: Option<string>) {
    s.Some? && s.value != ""
  }

  /** Why a path failed: Mongoose's `required` validator or its `enum` validator. */
  datatype Violation = Required | NotInEnum(value: string)

  /**
   * The validation errors of a candidate, keyed by path as Mongoose's ValidationError
   * keys them: exactly the failing required paths, plus `status` when it names no status.
   */
  function Violations(c: Candidate): (v: map<string, Violation>)
    ensures "user" in v <==> c.user.None?
    ensures "company" in v <==> !Filled(c.company)
    ensures "jobTitle" in v <==> !Filled(c.jobTitle)
    ensures "applicationDate" in v <==> c.applicationDate.None?
    ensures "location" in v <==> !Filled(c.location)
    ensures "status" in v <==> !Filled(c.status) || ParseStatus(c.status.value).None?
    ensures "status" in v ==> v["status"] == if Filled(c.status) then NotInEnum(c.status.value) else Required
    ensures forall path | path in v :: path in {"user", "company", "jobTitle", "applicationDate", "status", "location"}
  {
    var m0: map<string, Violation> := map[];
    var m1 := if c.user.None? then m0["user" := Required] else m0;
    var m2 := if !Filled(c.company) then m1["company" := Required] else m1;
    var m3 := if !Filled(c.jobTitle) then m2["jobTitle" := Required] else m2;
    var m4 := if c.applicationDate.None? then m3["applicationDate" := Required] else m3;
    var m5 := if !Filled(c.status) then m4["status" := Required]
              else if ParseStatus(c.status.value).None? then m4["status" := NotInEnum(c.status.value)]
              else m4;
    if !Filled(c.location) then m5["location" := Required] else m5
  }

  /**
   * `save()` of a new or modified document: it is stored only when no path fails; the
   * stored record copies every supplied path, keeps an absent followUpDate/industry absent,
   * and takes the generated uuid only when none was supplied.
   */
  function Validate(c: Candidate, id: DocId, serialNo: int, generatedUuid: string): (r: Result<JobApplication, map<string, Violation>>)
    ensures r.Success? <==>
      (c.user.Some? && Filled(c.company) && Filled(c.jobTitle) && c.applicationDate.Some?
       && Filled(c.location) && c.status.Some? && ParseStatus(c.status.value).Some?)
    ensures r.Failure? ==> r.error == Violations(c) && r.error != map[]
    ensures r.Success? ==>
      && r.value.id == id && r.value.serialNo == serialNo
      && Some(r.value.user) == c.user
      && Some(r.value.company) == c.company
      && Some(r.value.jobTitle) == c.jobTitle
      && Some(r.value.applicationDate) == c.applicationDate
      && Some(StatusName(r.value.status)) == c.status
      && r.value.followUpDate == c.followUpDate
      && Some(r.value.location) == c.location
      && r.value.industry == c.industry
      && r.value.uuid == c.uuid.GetOr(generatedUuid)
      && WellFormed(r.value)
  {
    var v := Violations(c);
    if v != map[] then Failure(v)
    else
      Success(JobApplication(
        id, c.user.value, serialNo, c.company.value, c.jobTitle.value, c.applicationDate.value,
        ParseStatus(c.status.value).value, c.followUpDate, c.location.value, c.industry,
        c.uuid.GetOr(generatedUuid)))
  }

  /** The fields of the add and edit forms (req.body). */
  datatype JobForm = JobForm(
    company: Option<string>,
    jobTitle: Option<string>,
    applicationDate: Option<Timestamp>,
    status: Option<string>,
    followUpDate: Option<Timestamp>,
    location: Option<string>)

  /** The document the add route builds: no industry and no uuid, so the uuid default applies. */
  function NewCandidate(user: UserId, form: JobForm): Candidate {
    Candidate(Some(user), form.company, form.jobTitle, form.applicationDate, form.status,
              form.followUpDate, form.location, None, None)
  }

  /** The document the edit route saves: the six form fields over the existing record. */
  function EditedCandidate(d: JobApplication, form: JobForm): Candidate {
    Candidate(Some(d.user), form.company, form.jobTitle, form.applicationDate, form.status,
              form.followUpDate, form.location, d.industry, Some(d.uuid))
  }

  /**
   * The add route's `save()`: a record of the requesting user with no industry, which gets
   * the generated uuid, since the form supplies none.  It fails exactly when a required form
   * field is empty or the status is unknown.
   */
  function NewRecord(user: UserId, form: JobForm, id: DocId, serialNo: int, generatedUuid: string): (r: Result<JobApplication, map<string, Violation>>)
    ensures r.Success? <==> Filled(form.company) && Filled(form.jobTitle) && form.applicationDate.Some?
                            && Filled(form.location) && form.status.Some? && ParseStatus(form.status.value).Some?
    ensures r.Success? ==>
      r.value == JobApplication(id, user, serialNo, form.company.value, form.jobTitle.value,
                                form.applicationDate.value, ParseStatus(form.status.value).value,
                                form.followUpDate, form.location.value, None, generatedUuid)
  {
    Validate(NewCandidate(user, form), id, serialNo, generatedUuid)
  }

  /**
   * The edit route's `save()`: it overwrites exactly company, jobTitle, applicationDate,
   * status, followUpDate and location; id, user, serialNo, industry and uuid are kept.  It
   * fails exactly when the form leaves a required field empty or names an unknown status.
   */
  function EditedRecord(d: JobApplication, form: JobForm): (r: Result<JobApplication, map<string, Violation>>)
    ensures r.Success? <==> Filled(form.company) && Filled(form.jobTitle) && form.applicationDate.Some?
                            && Filled(form.location) && form.status.Some? && ParseStatus(form.status.value).Some?
    ensures r.Success? ==>
      r.value == d.(company := form.company.value, jobTitle := form.jobTitle.value,
                    applicationDate := form.applicationDate.value,
                    status := ParseStatus(form.status.value).value,
                    followUpDate := form.followUpDate, location := form.location.value)
  {
    Validate(EditedCandidate(d, form), d.id, d.serialNo, d.uuid)
  }
}
