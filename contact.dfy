/**
 * The contact form: the Contact schema (models/Contact.js) as a validator, and the POST
 * handler of routes/contact.js, which checks the account email against the logged-in
 * user's and then saves a Contact.  Its upload middleware is multer with memory storage
 * and neither a file filter nor a size limit, so any uploaded file becomes the screenshot.
 */
module ContactModel {
  import opened Wrappers
  import opened JobApplicationModel
  import opened Upload

  /** A saved contact request. */
  datatype Contact = Contact(
    name: string,
    helpWith: string,
    accountEmail: string,
    contactEmail: string,
    description: string,
    screenshot: Option<Picture>,
    date: Timestamp)

  /** A document about to be saved: every path as supplied, before validation and defaults. */
  datatype ContactCandidate = ContactCandidate(
    name: Option<string>,
    helpWith: Option<string>,
    accountEmail: Option<string>,
    contactEmail: Option<string>,
    description: Option<string>,
    screenshot: Option<Picture>,
    date: Option<Timestamp>)

  predicate Complete(c: Contact) {
    c.name != "" && c.helpWith != "" && c.accountEmail != "" && c.contactEmail != "" && c.description != ""
  }

  /** The `required` String paths that fail, named as Mongoose names them. */
  function MissingPaths(c: ContactCandidate): (m: set<string>)
    ensures "name" in m <==> !Filled(c.name)
    ensures "helpWith" in m <==> !Filled(c.helpWith)
    ensures "accountEmail" in m <==> !Filled(c.accountEmail)
    ensures "contactEmail" in m <==> !Filled(c.contactEmail)
    ensures "description" in m <==> !Filled(c.description)
    ensures m <= {"name", "helpWith", "accountEmail", "contactEmail", "description"}
  {
    (if Filled(c.name) then {} else {"name"})
    + (if Filled(c.helpWith) then {} else {"helpWith"})
    + (if Filled(c.accountEmail) then {} else {"accountEmail"})
    + (if Filled(c.contactEmail) then {} else {"contactEmail"})
    + (if Filled(c.description) then {} else {"description"})
  }

  /**
   * `save()` of a new Contact: it is stored exactly when the five required paths are
   * filled; the screenshot stays optional and the date defaults to the creation time.
   */
  function ValidateContact(c: ContactCandidate, now: Timestamp): (r: Result<Contact, set<string>>)
    ensures r.Success? <==>
      Filled(c.name) && Filled(c.helpWith) && Filled(c.accountEmail) && Filled(c.contactEmail) && Filled(c.description)
    ensures r.Failure? ==> r.error == MissingPaths(c) && r.error != {}
    ensures r.Success? ==>
      && Complete(r.value)
      && Some(r.value.name) == c.name && Some(r.value.helpWith) == c.helpWith
      && Some(r.value.accountEmail) == c.accountEmail && Some(r.value.contactEmail) == c.contactEmail
      && Some(r.value.description) == c.description
      && r.value.screenshot == c.screenshot
      && r.value.date == c.date.GetOr(now)
  {
    var missing := MissingPaths(c);
    if missing != {} then Failure(missing)
    else
      Success(Contact(c.name.value, c.helpWith.value, c.accountEmail.value, c.contactEmail.value,
                      c.description.value, c.screenshot, c.date.GetOr(now)))
  }

  /** The body of POST /contact. */
  datatype ContactForm = ContactForm(
    name: Option<string>,
    helpWith: Option<string>,
    accountEmail: Option<string>,
    contactEmail: Option<string>,
    description: Option<string>)

  /**
   * `new Contact({ ... })` in the handler: the five submitted fields, the uploaded file as
   * screenshot when there is one, and no date (so the default applies).
   */
  function Submission(form: ContactForm, upload: MulterResult): (c: ContactCandidate)
    ensures c.name == form.name && c.helpWith == form.helpWith && c.accountEmail == form.accountEmail
    ensures c.contactEmail == form.contactEmail && c.description == form.description
    ensures c.screenshot.Some? <==> upload.FileAccepted?
    ensures upload.FileAccepted? ==> c.screenshot == Some(Picture(upload.file.data, upload.file.mimetype))
    ensures c.date.None?
  {
    var screenshot := if upload.FileAccepted? then Some(Picture(upload.file.data, upload.file.mimetype)) else None;
    ContactCandidate(form.name, form.helpWith, form.accountEmail, form.contactEmail, form.description, screenshot, None)
  }

  datatype ContactOutcome = EmailMismatch | SaveFailed | Received(contactEmail: string) {
    function Message(): string {
      match this
      case EmailMismatch => "The email associated with this account does not match the logged-in email."
      case SaveFailed => "Something went wrong. Please try again later."
      case Received(email) =>
        "We have received your details, we will contact you in 2 business days to your email ("
        + email + "). Thanks for contacting us and your patience."
    }
  }

  /** The saved contact requests. */
  class Inbox {
    var contacts: seq<Contact>

    ghost predicate Valid()
      reads this
    {
      forall i | 0 <= i < |contacts| :: Complete(contacts[i])
    }

    constructor ()
      ensures Valid() && contacts == []
    {
      contacts := [];
    }

    /**
     * POST /contact by the logged-in user whose stored email is userEmail, with the file
     * (if any) multer read from the `screenshot` field.
     */
    method Submit(form: ContactForm, userEmail: string, file: Option<UploadedFile>, now: Timestamp)
      returns (r: ContactOutcome)
      requires Valid()
      modifies this
      ensures Valid()
      ensures form.accountEmail != Some(userEmail) ==> r == EmailMismatch && contacts == old(contacts)
      ensures form.accountEmail == Some(userEmail) ==>
        var v := ValidateContact(Submission(form, AnyUpload(file)), now);
        && (v.Failure? ==> r == SaveFailed && contacts == old(contacts))
        && (v.Success? ==> r == Received(form.contactEmail.value) && contacts == old(contacts) + [v.value])
    {
      var errors: seq<string> := [];
      if form.accountEmail != Some(userEmail) {
        errors := errors + [EmailMismatch.Message()];
      }
      if |errors| > 0 {
        return EmailMismatch;
      }
      var v := ValidateContact(Submission(form, AnyUpload(file)), now);
      if v.Failure? {
        return SaveFailed;
      }
      contacts := contacts + [v.value];
      r := Received(form.contactEmail.value);
    }
  }

  /**
   * The contact a matching submission saves carries exactly the five submitted fields,
   * has a screenshot exactly when a file was uploaded, is dated `now`, and its
   * confirmation message names the submitted contact email.
   */
  lemma SubmissionSaved(form: ContactForm, file: Option<UploadedFile>, now: Timestamp)
    requires Filled(form.name) && Filled(form.helpWith) && Filled(form.accountEmail)
    requires Filled(form.contactEmail) && Filled(form.description)
    ensures var v := ValidateContact(Submission(form, AnyUpload(file)), now);
      && v.Success?
      && v.value == Contact(form.name.value, form.helpWith.value, form.accountEmail.value,
                            form.contactEmail.value, form.description.value,
                            if file.Some? then Some(Picture(file.value.data, file.value.mimetype)) else None,
                            now)
      && Received(v.value.contactEmail).Message()
         == "We have received your details, we will contact you in 2 business days to your email ("
            + form.contactEmail.value + "). Thanks for contacting us and your patience."
  {
  }
}
