# Job application tracker — a Dafny model of its record logic

The application is an Express/Mongoose web app. A logged-in user keeps a list of job
applications. Each application has a company, a title, dates, a status, a location and a
uuid, plus a per-user serial number. Users can filter, export and analyse the list, and
get a PDF summary of it. Around the list sit the account handlers (registration,
forgotten password, profile and profile picture), a contact form, the image upload rule,
the locale and translation helpers of the templates, and the browser script that shows
the chosen language.

The project models the decisions and state changes of those handlers. Every database
handler is one atomic step over an in-memory collection:

| module | file | models |
|---|---|---|
| `Wrappers` | wrappers.dfy | `Option` and `Result` |
| `JobApplicationModel` | job_application.dfy | the JobApplication schema as a validator; the documents the add and edit routes save |
| `JobOrdering` | job_ordering.dfy | `sort({serialNo: 1})` and the newest-first `Array.prototype.sort`, as one stable sort by an integer key |
| `JobStore` | job_store.dfy | the job-application collection as a class: add (serial allocation), edit, and delete followed by the renumbering loop |
| `JobViews` | job_views.dfy | the dashboard filter, CSV export rows, PDF page breaks, and the integer parts of the analytics page |
| `Upload` | upload.dfy | multer's image `fileFilter` and size limit, with `path.extname` and `toLowerCase` |
| `Users` | users.dfy | the user collection as a class: registration checks, forgot/reset token life cycle, profile update, profile picture |
| `ContactModel` | contact.dfy | the Contact schema as a validator, and the contact-form handler |
| `AppHelpers` | app_helpers.dfy | locale choice, `translateStatus`/`translateAction`, `incrementedIndex`, `eq`/`ifEquals`, `base64` |
| `ClientScript` | client_script.dfy | `getCookie` over `split`, the language fallback and label, query-over-cookie precedence |

Things outside the program's own logic become parameters:
- the database identity of a new document: a counter `nextId`;
- the clock: `now`;
- the hash bcrypt produced: `hashed`;
- the token `crypto.randomBytes` produced: `token`;
- the generated uuid: `generatedUuid`;
- whether the mail transport succeeded: `delivered`;
- the date a query string denotes: `DateParam.date`.

Three behaviours of the code are stated as proved properties:
- Edit and delete check no ownership.
- Delete renumbers the *requesting* user's records, so another owner can be left with a
  gap in their serial numbers: `JobStore.ForeignDeleteLeavesGap`.
- The profile update checks no uniqueness: `Users.ProfileUpdateAllowsDuplicateUsername`.

Where the schema and the route code disagree, the model follows the code. `serialNo` is
not a path of the JobApplication schema (models/JobApplication.js:5-42), yet the add,
delete, export and view routes read and write it. The model carries it as a stored field,
as the route code assumes. Under Mongoose's default strict mode the value would be
dropped on save.

## Model

| member | source | states |
|---|---|---|
| `JobApplicationModel.StatusName` | models/JobApplication.js:23-27 | each status's name passes the enum check and parses back to that status |
| `JobApplicationModel.ParseStatus` | models/JobApplication.js:23-27 | a text is a status exactly when it is one of applied, interviewed, offered, rejected |
| `JobApplicationModel.Violations` | models/JobApplication.js:5-42 | the validation errors are keyed by exactly the failing paths: user, company, jobTitle, applicationDate and location when missing (strings also when empty), status when missing (required) or outside the enum (enum violation); no other path ever fails |
| `JobApplicationModel.Validate` | models/JobApplication.js:5-42 | a document is saved exactly when the six required paths are present, the strings non-empty and the status in the enum; a failure carries the violations; a saved record copies every path, keeps an absent followUpDate or industry absent, and takes the generated uuid only when none was supplied |
| `JobApplicationModel.NewRecord` | routes/JobApplications.js:32-43 | the add route's save succeeds exactly when the form's required fields are filled and its status is known; the record is the form's six fields, the requester as user, the allocated serial, no industry and the generated uuid |
| `JobApplicationModel.EditedRecord` | routes/JobApplications.js:403-410 | the edit route's save succeeds under the same condition; the record overwrites exactly company, jobTitle, applicationDate, status, followUpDate and location, and keeps id, user, serialNo, industry and uuid |
| `JobOrdering.SortBy` | routes/JobApplications.js:434-436 | the sorted records are a permutation of the input (same length, same multiset) |
| `JobOrdering.SortByAscending` | routes/JobApplications.js:434-436 | the sort's output is in ascending key order |
| `JobOrdering.SortByIdsDistinct` | routes/JobApplications.js:434-436 | records with distinct identities keep them distinct through the sort |
| `JobStore.Owned` | routes/JobApplications.js:114 | `find({user})` returns exactly the collection's records of that user (membership) |
| `JobStore.OwnedMultiplicity` | routes/JobApplications.js:114 | each of the user's records appears in `find({user})` as often as it is stored, and every other record not at all |
| `JobStore.MaxSerial` | routes/JobApplications.js:25-29 | the largest serial among the user's records: carried by one of them, at least every other, and present whenever the user has a record |
| `JobStore.NextSerial` | routes/JobApplications.js:25-30 | the new serial exceeds every serial the user has; it is 1 when the user has no record and otherwise one more than an existing serial of the user |
| `JobStore.IndexOfId` | routes/JobApplications.js:397 | `findById` finds the first position with that identity, and none exactly when no record has it |
| `JobStore.RemoveAt` | routes/JobApplications.js:425-427 | `findByIdAndDelete` removes exactly the record at that position; the others keep their order |
| `JobStore.SetSerial` | routes/JobApplications.js:438-439 | one step of the renumbering loop changes only the serial of the record with that identity |
| `JobStore.Store.Add` | routes/JobApplications.js:13-57 | POST /add stores the validated new record with the next serial and a fresh identity, or, when validation fails, returns the violations and changes nothing; the collection's invariant is kept |
| `JobStore.Store.Edit` | routes/JobApplications.js:387-420 | POST /edit: an unknown identity or a failing validation changes nothing; otherwise exactly that record, whoever owns it, is replaced by the edited record |
| `JobStore.Store.Delete` | routes/JobApplications.js:423-449 | POST /delete: an unknown identity changes nothing and reports "not found"; otherwise the record is removed, and the loop gives the requester's remaining records, in ascending old-serial order, serials 1, 2, 3, ... |
| `JobStore.RenumberStep` | routes/JobApplications.js:437-440 | one loop iteration extends the renumbered prefix by the next record in serial order |
| `JobStore.RenumberedFrame` | routes/JobApplications.js:434-440 | renumbering changes only serial numbers, and only those of the requester's records |
| `JobStore.RenumberedDense` | routes/JobApplications.js:434-440 | after renumbering, the requester's serials are exactly 1..N without repetition, N the number of the requester's records |
| `JobStore.RenumberedKeepsOrder` | routes/JobApplications.js:434-440 | of two of the requester's records, the one with the smaller old serial gets the smaller new serial, and conversely |
| `JobStore.OwnedCountRemove` | routes/JobApplications.js:425-427 | a delete takes one record away from its owner and none from anybody else |
| `JobStore.DenseNextSerial` | routes/JobApplications.js:25-30 | while a user's serials are 1..N, the next serial is N + 1 |
| `JobStore.AddKeepsDense` | routes/JobApplications.js:25-43 | adding a record with the allocated serial keeps every user's serials exactly 1..N without repetition |
| `JobStore.DeleteKeepsBystandersDense` | routes/JobApplications.js:423-440 | a delete leaves 1..N intact for every user who is neither the requester nor the deleted record's owner |
| `JobStore.ForeignDeleteLeavesGap` | routes/JobApplications.js:425-436 | when a stranger deletes the first of a user's two records, that user is left with serial 2 alone, no longer 1..N |
| `JobViews.BuildFilter` | routes/JobApplications.js:75-91 | the query object always has the user, and has location, status, the two date lower bounds and uuid exactly when that parameter is truthy, with its value |
| `JobViews.Select` | routes/JobApplications.js:94 | `find(filterQuery)` returns exactly the collection's records matching the query, each as often as it is stored |
| `JobViews.Dashboard` | routes/JobApplications.js:69-108 | "Server Error" exactly when a truthy date parameter is not a date; otherwise the returned records are exactly the user's records meeting every truthy parameter (equal location, status and uuid; dates at or after the bounds), each as often as it is stored, and totalApplications is their number |
| `JobViews.Numbered` | routes/JobApplications.js:130-139 | one row per application; row i has serial i + 1 and the application's other seven columns |
| `JobViews.ExportRows` | routes/JobApplications.js:114-139 | the CSV has exactly one row per record of the user |
| `JobViews.ExportSerialsArePositions` | routes/JobApplications.js:130-131 | exported serials are 1..N, increasing, and agree with the stored serials exactly when those already are 1..N in storage order |
| `JobViews.SummaryOrder` | routes/JobApplications.js:154-156 | the summary lists a permutation of the user's records |
| `JobViews.SummaryOrderShape` | routes/JobApplications.js:154-156 | every listed record is the user's, in ascending application date |
| `JobViews.Summary` | routes/JobApplications.js:151-257 | GET /summary lays out the user's records by ascending date: N + ⌊N/3⌋ items, the i-th record printed as serial i + 1 at position i + ⌊i/3⌋, a page break after every third |
| `JobViews.SummaryLayout` | routes/JobApplications.js:212-241 | the `forEach` emits exactly the block-by-block layout: each application, then a page break when its 1-based index is a multiple of 3 |
| `JobViews.LayoutLength` | routes/JobApplications.js:212-241 | a summary of N applications has N entries and ⌊N/3⌋ page breaks |
| `JobViews.LayoutPositions` | routes/JobApplications.js:212-241 | application i is printed with serial i + 1 at position i + ⌊i/3⌋, followed by a page break exactly when i + 1 is a multiple of 3 |
| `JobViews.CountStatus` | routes/JobApplications.js:291-299 | a status count is at most N, and zero exactly when no record has that status |
| `JobViews.StatusCountsSum` | routes/JobApplications.js:269-299 | the four status counts add up to totalApplications |
| `JobViews.AnalyticsCounts` | routes/JobApplications.js:269-299 | totalApplications is N; interviews + offers + rejections is N minus the applied records, so at most N |
| `JobViews.IndustryStats` | routes/JobApplications.js:302-307 | the `reduce` loop builds exactly the accumulator of counting the records one at a time |
| `JobViews.Analytics` | routes/JobApplications.js:264-322 | GET /analytics computes counts, industry tally and recent table over the user's own records: totalApplications is their number, each industry entry counts that user's records of the industry and their offers, and the table has min(N, 10) rows, each a record of that user |
| `JobViews.TallyCounts` | routes/JobApplications.js:302-307 | there is an entry exactly for each industry key that occurs; its total counts that key's records, its success those with an offer, so success is at most total |
| `JobViews.TallySums` | routes/JobApplications.js:302-307 | the industry totals add up to totalApplications, and the successes to totalOffers |
| `JobViews.Take` | routes/JobApplications.js:312 | `slice(0, n)` keeps the first min(N, n) records |
| `JobViews.RecentApplicationsShape` | routes/JobApplications.js:310-322 | recentApplications has min(N, 10) rows numbered 1..k, newest first, each showing one of the given applications, and no application left out is newer than a shown one |
| `JobViews.RecentApplicationsPrefix` | routes/JobApplications.js:310-322 | recentApplications numbers exactly the first min(N, 10) records of the newest-first order |
| `Upload.Contains` | config/multer.js:7-9 | an unanchored pattern word matches exactly when it occurs at some position |
| `Upload.Lower` | config/multer.js:8 | `toLowerCase` keeps the length and lower-cases each ASCII capital |
| `Upload.TrimTrailingSlashes` | config/multer.js:8 | the path without its trailing slashes: a prefix that does not end in '/', followed in the path only by slashes |
| `Upload.BaseName` | config/multer.js:8 | the last path component holds no '/' and is the end of the path without its trailing slashes, either all of it or the part after a '/' |
| `Upload.ExtName` | config/multer.js:8 | `path.extname` is empty, or is a proper suffix of the last component that starts with its only '.' |
| `Upload.ExtNameEmpty` | config/multer.js:8 | `path.extname` is empty exactly when the last component has no '.' after its first character, or is ".." |
| `Upload.ExtNameOfPlainName` | config/multer.js:8 | the extension of stem.suffix, with no '/' and no further dot in the suffix, is ".suffix" |
| `Upload.ExtNameLower` | config/multer.js:8 | lower-casing the name and taking its extension commute |
| `Upload.FileFilter` | config/multer.js:6-16 | a file passes exactly when its lower-cased extension and its mimetype both contain jpeg, jpg or png; otherwise the error is "Error: Images Only!" |
| `Upload.ImageUpload` | config/multer.js:18-22 | no file gives no file; a file is taken exactly when it passes the filter and has at most 150000 bytes; a refused type gives "Error: Images Only!" and an image over the limit gives "File too large" |
| `Upload.AnyUpload` | routes/contact.js:7-8 | the contact form's multer, with no filter and no limit, takes any file |
| `Upload.ExtensionCaseInsensitive` | config/multer.js:8 | a file passes exactly when the same file with a lower-cased name passes |
| `Upload.MimetypeCaseSensitive` | config/multer.js:9 | a type with no lower-case 'p', such as "image/PNG", is refused although its lower-cased form passes for the same file name |
| `Upload.ImagePatternHasP` | config/multer.js:7 | any text the pattern matches contains a 'p' |
| `Upload.PatternIsUnanchored` | config/multer.js:7-9 | an extension that merely starts with "jpg" and a type that merely holds "png" pass |
| `Users.FindById` | routes/users.js:238 | `findById` finds a user with that identity, and none exactly when no user has it |
| `Users.FindByUsername` | routes/users.js:48 | `findOne({username})` finds the first user with that name, and none exactly when nobody has it |
| `Users.FindByEmail` | routes/users.js:60 | `findOne({email})` finds the first user with that email, and none exactly when nobody has it |
| `Users.RegistrationErrors` | routes/users.js:21-45 | a missing password throws; otherwise "Please enter all fields", "Passwords do not match" and "Password must be at least 6 characters" are each present exactly when their check fails, nothing else is present, they come in that order, and the list is empty exactly when all checks pass |
| `Users.NewUser` | routes/users.js:72-75 | the new user has the submitted username and email, the hash as password, and no reset token, picture or other profile field |
| `Users.FindByToken` | routes/users.js:186-189 | the reset lookup finds the first user holding that token with an expiry strictly after now, and none exactly when no user does |
| `Users.IssueToken` | routes/users.js:126-129 | after POST /forgot the new token is accepted exactly at times before now + 3600000, no other token is accepted, and the profile and password are untouched |
| `Users.ApplyReset` | routes/users.js:196-200 | after a reset the hash is the password, and no token is accepted at any time; the profile is untouched |
| `Users.ResetLinkValid` | routes/users.js:159-175 | GET /reset/:token shows the form exactly when some user accepts the token now |
| `Users.UpdatedProfile` | routes/users.js:238-246 | the profile save succeeds exactly when username and email are non-empty, and then changes exactly the seven submitted fields |
| `Users.UserDirectory.Register` | routes/users.js:21-88 | POST /register: a missing password crashes the handler; failing checks are reported with their messages; then an existing username is refused before an existing email is looked up; only then is the user appended; no state changes on any refusal, and distinct usernames and emails stay distinct |
| `Users.UserDirectory.Forgot` | routes/users.js:116-157 | POST /forgot: an unknown email changes nothing; otherwise the first user with that email gets the token with a one-hour expiry, stored whether or not the mail is delivered, and the message names that user's email |
| `Users.UserDirectory.Reset` | routes/users.js:177-211 | POST /reset/:token: mismatched passwords are refused before any lookup; an unaccepted token changes nothing; otherwise the accepting user gets the new hash and loses the token |
| `Users.UserDirectory.UpdateProfile` | routes/users.js:234-254 | POST /profile: on success exactly the logged-in user's record becomes the updated profile; on a failed save nothing changes |
| `Users.UserDirectory.UploadPicture` | routes/users.js:257-285 | the request's file goes through the image filter and the 150000-byte limit first; a multer error escapes the handler; no file gives "Please upload a valid image file under 150KB"; an accepted file becomes exactly the user's picture; the users change only when the file passed the filter and fits the limit |
| `Users.UserDirectory.RemovePicture` | routes/users.js:288-304 | the user's picture is unset, and nothing else changes |
| `Users.IssuedTokenFound` | routes/users.js:126-129 | a token issued at time T to one user is found for that user exactly at times before T + 3600000, unless another user holds the same token |
| `Users.ResetTokenSingleUse` | routes/users.js:196-200 | after a successful reset the same token is refused at every time |
| `Users.ProfileUpdateAllowsDuplicateUsername` | routes/users.js:238-246 | the profile update checks no uniqueness, so a user can take another user's username, which registration refuses |
| `ContactModel.MissingPaths` | models/Contact.js:6-26 | each of the five required paths is reported exactly when it is missing or empty, and nothing else is |
| `ContactModel.ValidateContact` | models/Contact.js:6-35 | a Contact is saved exactly when the five required paths are filled; the screenshot stays optional, the date defaults to the creation time, and the fields are copied |
| `ContactModel.Submission` | routes/contact.js:46-58 | the new Contact has the five submitted fields, a screenshot exactly when a file was taken (its bytes and type), and no date |
| `ContactModel.Inbox.Submit` | routes/contact.js:20-76 | a differing account email is refused and nothing is saved; otherwise the Contact is appended when it validates and the message names the contact email, and nothing changes when it does not |
| `ContactModel.SubmissionSaved` | routes/contact.js:46-63 | a complete matching submission saves exactly the five fields, the screenshot if any and the time, and its message embeds the contact email |
| `AppHelpers.ChooseLocale` | app.js:136 | the locale is the non-empty `lang`, else the non-empty `locale` cookie, else "en"; it is never empty |
| `AppHelpers.LocaleSticks` | app.js:136-139 | the chosen locale is written back to the cookie, so a later request without `lang` keeps it, and a later `lang` overrides it |
| `AppHelpers.ParseLocale` | app.js:76-95 | the tables know exactly the locales en, es and fr |
| `AppHelpers.TranslateStatus` | app.js:74-98 | an unknown locale throws; a known locale and status give that table entry; a known locale and unknown status give `undefined` |
| `AppHelpers.StatusLabelsDistinct` | app.js:76-95 | within a locale, different statuses have different labels |
| `AppHelpers.EveryStatusTranslated` | app.js:74-98 | every stored status is translated in each of the three locales |
| `AppHelpers.TranslateAction` | app.js:100-118 | an unknown locale throws; a known locale and action give that table entry; an unknown action gives `undefined` |
| `AppHelpers.ActionLabelsDistinct` | app.js:102-115 | within a locale, edit and delete have different labels |
| `AppHelpers.UnsupportedLocaleThrows` | app.js:74-118 | `?lang=de` is accepted by the middleware but makes both translation helpers throw |
| `AppHelpers.DisplayNumbers` | app.js:55-57 | `incrementedIndex` shows n items numbered 1..n in order |
| `AppHelpers.StrictEquals` | app.js:66-68 | `eq` holds between two strings exactly when they are equal, and never between a string and a non-string |
| `AppHelpers.LooseEquals` | app.js:63-65 | `ifEquals` compares strings as `eq` does, and never equates a string with a non-string |
| `AppHelpers.LooseAndStrictDiffer` | app.js:63-68 | `ifEquals` and `eq` differ exactly on `null` against `undefined` |
| `AppHelpers.DigitValue` | app.js:121 | a character has a base64 digit value exactly when it is in the alphabet, and the value maps back to it |
| `AppHelpers.Encode` | app.js:121 | base64 output has four characters for every started group of three bytes |
| `AppHelpers.GroupRoundTrip` | app.js:121 | decoding an encoded group of one to three bytes gives the bytes back |
| `AppHelpers.EncodeRoundTrip` | app.js:121 | decoding the base64 text of a buffer gives the buffer back |
| `AppHelpers.Base64` | app.js:120-122 | the helper gives "" exactly for a missing or empty buffer, and otherwise text that decodes to the buffer |
| `ClientScript.IndexOf` | public/javascripts/script.js:12 | the first occurrence of the separator at or after the start, and none exactly when there is no later occurrence |
| `ClientScript.JoinSplit` | public/javascripts/script.js:12-13 | joining the pieces of `split` with the separator gives the text back |
| `ClientScript.PiecesFree` | public/javascripts/script.js:12-13 | no piece of `split` contains the separator |
| `ClientScript.FirstPiece` | public/javascripts/script.js:13 | `split(";").shift()` is the text up to the first ';', or all of it |
| `ClientScript.GetCookieSpec` | public/javascripts/script.js:10-14 | for a name without ';', `getCookie` returns a value exactly when "; name=" occurs once in "; " + cookie; the value is the text after it up to the next ';' or the end, and holds no ';' |
| `ClientScript.SingleCookie` | public/javascripts/script.js:10-14 | a cookie string "name=value" yields exactly that value |
| `ClientScript.DuplicateCookie` | public/javascripts/script.js:12-13 | a name set twice in the cookie string yields `undefined` |
| `ClientScript.CurrentLanguage` | public/javascripts/script.js:25-27 | the language is the non-empty "language" cookie, else "en"; never empty |
| `ClientScript.Label` | public/javascripts/script.js:32 | the label is ES for "es", FR for "fr", and EN for anything else |
| `ClientScript.DisplayedLanguage` | public/javascripts/script.js:45-46 | a non-empty `lang` query parameter wins over the cookie |
| `ClientScript.ChosenLanguageShown` | public/javascripts/script.js:45-59 | after choosing a language (cookie set, then reload with `?lang=`), its label is shown, and the cookie alone also yields it |

## Left out

- Express routing, rendering, redirects, flash storage, `res.download`, and the GET pages that only render a template: a handler's observable decision is its returned outcome.
- Mongoose and MongoDB query semantics beyond first-match lookups, filtering and sorting over an in-memory sequence. Each handler is one atomic step.
- The interleaving of concurrent add and delete requests at `await` points. It is a concurrency concern.
- successRate and averageResponseTime (routes/JobApplications.js:273-288): floating-point division with `toFixed`, NaN on an empty list.
- Date parsing and formatting (`new Date`, moment, `formatDate`, `formatDateForInput`). Dates are integer timestamps, and a date query parameter carries the date it denotes, if any.
- csv-writer file output, PDFKit drawing, and the file-system writes of reports and profile images. Only the row mapping, the order and the page-break rule are modelled.
- bcrypt, `crypto.randomBytes`, uuid generation and nodemailer are parameters: `hashed`, `token`, `generatedUuid`, `delivered`.
- A database error inside a handler's `try` is modelled only where the model can cause it: a failing schema validation on save. The "Something went wrong" page of a lost connection is not modelled.
- The ownership-free edit and delete and the requester-based renumbering are modelled as written. `JobStore.ForeignDeleteLeavesGap` states the consequence.
- JavaScript prototype keys used as table keys: `translations["constructor"]`, an industry named "__proto__". The tables are modelled as plain maps.
- `Users.UserDirectory.Forgot` with no email in the body: `findOne({ email: undefined })` is modelled as matching nobody. Whether the driver drops an undefined filter value, and so matches the first user, is not modelled.
- `JsValue` covers strings, `undefined` and `null`. `ifEquals`' coercion of numbers and booleans is not modelled.
- `toLowerCase` is modelled on ASCII letters only. Non-ASCII case mapping, and string lengths in UTF-16 code units, are not modelled.
- `ClientScript.Split`: `split` with an empty separator is not modelled. The script only splits at non-empty separators.
- `ClientScript.GetCookieSpec` is stated for cookie names without ';'. The script's only name, "language", has none.
- The client reads a `language` cookie it sets itself. The server reads a `locale` cookie it sets itself. Both are modelled as written, and they are independent.
- `updateLanguageUI`'s DOM loop, `setCookie`'s expiry date and the page reload (public/javascripts/script.js:16-22, 30-42, 49-61): DOM manipulation.
- The profile page's data URL (routes/users.js:213-231), login, logout, passport, the share route and the shared-profile lookup. These are library glue, or outside the modelled core.
- `Upload.MimetypeCaseSensitive` and `Upload.PatternIsUnanchored` are stated for families of names and types, not for every name and type. Over all inputs, `Upload.FileFilter` states the accept rule itself.
- multer's other limits and errors (field count, part count, aborted streams) are not modelled. Only the file filter and `fileSize` are.
