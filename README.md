# Notes App — a Dafny model of its request handlers and client-side rules

Notes App is a small notes service with a web client. Users register and log
in. A login returns a JSON Web Token, and with that token a user creates,
edits, lists and deletes short notes. This project models the parts that
decide what happens:

- the server's constants: status codes, messages, and the e-mail and password
  patterns (`js_string.dfy`, `constants.dfy`);
- the two collections and the constraints their schemas put on each record
  (`user_model.dfy`, `note_model.dfy`);
- bcrypt and jsonwebtoken, as records of functions with the laws the handlers
  rely on, stated as hypotheses (`crypto.dfy`);
- the auth middleware that guards the note routes (`auth_gate.dfy`);
- the note handlers and the account handlers (`notes_controller.dfy`,
  `user_controller.dfy`);
- the registration form and the notes page of the client (`register_form.dfy`,
  `home_page.dfy`).

Each handler appears twice:

- as a function from the collection before to the reply and the collection
  after;
- as a method over a table class that takes the handler's steps and is proved
  equal to that function.

The lemmas about the functions state what the handlers promise:

- refusals leave the store alone;
- a registered user can log in;
- only a password with the registered password's bcrypt key logs in;
- a login token passes the gate;
- nobody else can change or remove your notes;
- the schema invariants hold after every request.

A collection is a map from ids to records. A counter stands in for the
generation of ObjectIds. The clock and bcrypt's salt are parameters.

## Model

| member | source | states |
|---|---|---|
| JsString.Truthy | Backend/controller/notes.controller.js:23 | a body field is truthy exactly when it is present and not the empty string |
| JsString.Trim | Frontend/componets/Home.jsx:123 | `trim()` yields the slice of the input between a white-space prefix and a white-space suffix, with no white space at either end; it is empty exactly when the input is all white space |
| JsString.TrimIdempotent | Backend/model/user.js:7 | trimming twice is trimming once |
| JsString.ToLower | Frontend/componets/Home.jsx:336 | `toLowerCase()` keeps the length and lowers each letter, position by position |
| JsString.LowerTrimCommute | Backend/model/user.js:13-14 | the `lowercase` and `trim` setters give the same address in either order |
| JsString.IncludesAt | Frontend/componets/Home.jsx:336 | `includes(sub)` holds exactly when `sub` occurs at some position of the string |
| JsString.Includes | Frontend/componets/Home.jsx:336 | `includes(sub)`: the string starts with `sub` or its tail includes it; the empty string is included in every string |
| JsString.Split | Backend/Middleware/authMiddleware.js:16 | `split(' ')` yields at least one part, and no part contains the separator |
| JsString.JoinSplit | Backend/Middleware/authMiddleware.js:16 | joining the parts of `split(' ')` with the separator gives back the header |
| JsString.SplitJoin | Backend/Middleware/authMiddleware.js:16 | splitting parts joined with the separator gives back the parts |
| Constants.Code | Backend/contant.js:10-17 | every status code is an HTTP status, and it is below 300 exactly for OK and CREATED |
| Constants.CodesDistinct | Backend/contant.js:10-17 | no two named statuses share a number |
| Constants.Text | Backend/contant.js:19-31 | each message is sent with the wording `contant.js` gives it |
| Constants.LoginSuccess | Backend/contant.js:29 | the greeting is "Welcome " followed by the name |
| Constants.IsEmail | Backend/contant.js:6 | an address has a first '@' after at least one character, no white space, no later '@', and a dot after the '@' with characters on both sides |
| Constants.EmailDecision | Backend/contant.js:6 | the executable address check accepts exactly what `^[^\s@]+@[^\s@]+\.[^\s@]+$` matches |
| Constants.EmailOneAt | Backend/contant.js:6 | an accepted address has exactly one '@' and no white space |
| Constants.EmailParts | Backend/contant.js:6 | an accepted address has a non-empty local part, then '@', then a dot with characters on both sides |
| Constants.IsComplexPassword | Backend/contant.js:7 | a password has at least 8 characters, all letters, digits or symbols from `@$!%?#&`, and at least one lower-case letter, upper-case letter, digit and symbol |
| Constants.PasswordDecision | Backend/contant.js:7 | the executable password check accepts exactly what the complexity pattern matches: a lower-case letter, an upper-case letter, a digit and a symbol from `@$!%?#&`, with only those characters and at least 8 of them |
| Constants.PasswordRejectsSpaceAndStar | Backend/contant.js:7 | an accepted password holds neither a space nor '*' |
| Constants.PasswordExamples | Backend/contant.js:7 | "Abcd1234!" is accepted and "abc" is refused |
| UserModel.NormalizeEmail | Backend/model/user.js:13-14 | a stored address is lower-case and trimmed, and no longer than the input |
| UserModel.NormalizeEmailIdempotent | Backend/model/user.js:13-14 | normalising a normalised address changes nothing |
| UserModel.RegexEmailPassesSchema | Backend/model/user.js:15 | every address the registration pattern accepts satisfies the schema's `match` |
| UserModel.SchemaEmailIsLooser | Backend/model/user.js:15 | the schema's unanchored pattern admits "a@@b.c", which the registration pattern refuses |
| UserModel.LowerKeepsEmail | Backend/model/user.js:13 | lower-casing keeps an accepted address accepted |
| UserModel.NormalizedEmailOk | Backend/model/user.js:9-16 | the normalised form of an accepted address is non-empty, accepted, and satisfies the schema |
| UserModel.UserOk | Backend/model/user.js:3-21 | a stored user has a non-empty trimmed name, a non-empty trimmed lower-case address that matches the schema's pattern, and a non-empty password |
| UserModel.EmailsUnique | Backend/model/user.js:12 | no two stored users share an address |
| UserModel.UserStoreOk | Backend/model/user.js:3-21 | every stored user meets the schema, has an id below the counter, and addresses are unique |
| UserModel.UserTable.constructor | Backend/model/user.js:3-21 | an empty collection satisfies the schema invariant |
| NoteModel.NoteOk | Backend/model/notes.js:10-18 | a stored note has a non-empty trimmed title and a non-empty description |
| NoteModel.NoteStoreOk | Backend/model/notes.js:4-21 | every stored note meets the schema and has an id below the counter |
| NoteModel.OwnedBy | Backend/controller/notes.controller.js:7 | `Note.find({ user })` gives exactly the notes owned by that user, unchanged |
| NoteModel.NoteTable.constructor | Backend/model/notes.js:4-21 | an empty collection satisfies the schema invariant |
| Crypto.Utf8Char | Backend/controller/user.controller.js:52 | a character is one to four bytes, its lead byte tells how many, continuation bytes lie in 0x80-0xBF, and no byte is zero unless the character is NUL |
| Crypto.Utf8CharDecodes | Backend/controller/user.controller.js:52 | decoding a character's bytes gives the character back |
| Crypto.Utf8 | Backend/controller/user.controller.js:52 | the bytes of a string are at least as many as its characters, and none is zero when the string has no NUL |
| Crypto.Utf8Injective | Backend/controller/user.controller.js:52 | different strings have different UTF-8 bytes |
| Crypto.Key | Backend/controller/user.controller.js:52 | bcrypt's key is the password's bytes with a terminating zero when they are fewer than 72, and their first 72 bytes otherwise |
| Crypto.ShortKeyInjective | Backend/controller/user.controller.js:99 | below 72 bytes, two passwords without NUL have the same key only when they are equal |
| Crypto.LongKeysAgree | Backend/controller/user.controller.js:99 | passwords of 72 bytes or more that agree on their first 72 bytes have the same key |
| Crypto.AcceptsOwn | Backend/controller/user.controller.js:99 | `compare` accepts a password against a digest made from it |
| Crypto.KeyOnly | Backend/controller/user.controller.js:99 | `compare` sees only the key: passwords with the same key get the same answer |
| Crypto.RejectsOtherKeys | Backend/controller/user.controller.js:99 | `compare` refuses a password without NUL whose key differs from the key the digest was made from |
| Crypto.DigestHidesPassword | Backend/controller/user.controller.js:52 | a digest is never empty and never the plaintext |
| Crypto.SaltsDiffer | Backend/controller/user.controller.js:51-52 | different salts give different digests of the same password |
| Crypto.JwtLaws | Backend/controller/user.controller.js:107-109 | a token is a non-empty word, verifies to its own claims until 365 days after issue and not after, and only tokens the secret signed verify |
| AuthGate.BearerToken | Backend/Middleware/authMiddleware.js:16-18 | a token is taken only from a present header, and it is non-empty and free of spaces |
| AuthGate.BearerTokenOf | Backend/Middleware/authMiddleware.js:16 | the token is the second space-separated word, whatever the scheme word and whatever follows |
| AuthGate.BearerTokenMissing | Backend/Middleware/authMiddleware.js:16-18 | a header of one word gives no token |
| AuthGate.BearerTokenExamples | Backend/Middleware/authMiddleware.js:16-18 | "Bearer " (nothing after the space) and "abc" (no space) give no token |
| AuthGate.Decide | Backend/Middleware/authMiddleware.js:13-47 | a request is admitted exactly when it carries a token that verifies and names a stored user, and the admitted user is that one, without the password; no token or a token that does not verify means 401; a verified token for a missing user means the undefined status |
| AuthGate.IssuedTokenAdmitted | Backend/Middleware/authMiddleware.js:16-40 | a token signed for an existing user is admitted as that user until it expires |
| AuthGate.ExpiredTokenRejected | Backend/Middleware/authMiddleware.js:25-46 | an expired token is refused with 401 |
| AuthGate.MissingUserRejected | Backend/Middleware/authMiddleware.js:28-34 | a valid token for a user no longer on file is refused |
| AuthGate.AdmittedHoldsIssuedToken | Backend/Middleware/authMiddleware.js:25-38 | the admitted user is the one the verified token names |
| AuthGate.Exchange.constructor | Backend/Middleware/authMiddleware.js:13 | a fresh request carries its header, has no user attached, and has nothing sent and no `next` call |
| AuthGate.Protect | Backend/Middleware/authMiddleware.js:13-47 | on every path either `next` runs once with the user attached, or exactly one rejection is sent and the request is left as it was |
| NotesController.GetNotesSpec | Backend/controller/notes.controller.js:4-16 | the reply lists exactly the notes of the requested user, and it is 404 exactly when there are none |
| NotesController.GetNotesIgnoresCaller | Backend/controller/notes.controller.js:5-11 | a caller is handed another user's notes |
| NotesController.GetOwnNotesSpec | Backend/controller/notes.controller.js:4-16 | with the owner check, only the caller's own notes are ever returned, and a request for someone else's is refused with 401 |
| NotesController.GetNotes | Backend/controller/notes.controller.js:4-16 | the handler's steps give the reply the specification gives |
| NotesController.CreateSpec | Backend/controller/notes.controller.js:20-39 | a missing or empty field gives 400 and changes nothing; a title that trims to nothing gives 500 and changes nothing; otherwise the note stored under a fresh id is owned by the caller, has the trimmed title and the description sent, and both timestamps now; the store invariant is kept |
| NotesController.CreateNote | Backend/controller/notes.controller.js:20-39 | the handler's steps give the reply and store the specification gives |
| NotesController.Edit | Backend/controller/notes.controller.js:56-57 | a truthy title replaces the old one trimmed and a truthy description replaces the old one as sent; a field left out or empty keeps its old value; owner and timestamps are untouched; a well-formed note stays well formed exactly when a title sent does not trim to nothing |
| NotesController.Touch | Backend/model/notes.js:20 | `updatedAt` moves to now only when the note changed; everything else is kept |
| NotesController.UpdateSpec | Backend/controller/notes.controller.js:41-64 | an unknown id gives 400 and another user's note 401; for the owner the update succeeds exactly when the edited note is well formed (on a valid store: when a title sent does not trim to nothing) and is a 500 otherwise; every failure changes nothing; a success stores the note with the trimmed title and the description sent in place of the old ones, keeps owner and creation time, moves `updatedAt` to now only if the content changed, and touches no other note; the store invariant is kept |
| NotesController.UpdateNote | Backend/controller/notes.controller.js:41-64 | the handler's steps give the reply and store the specification gives |
| NotesController.DeleteSpec | Backend/controller/notes.controller.js:66-87 | an unknown id gives 400 and another user's note 401, both changing nothing; a success by the owner removes that note and only it; the store invariant is kept |
| NotesController.DeleteNote | Backend/controller/notes.controller.js:66-87 | the handler's steps give the reply and store the specification gives |
| NotesController.RunKeepsStoreOk | Backend/model/notes.js:4-21 | every stored note stays well formed, with an id below the counter, across any run of requests |
| NotesController.StepKeepsOthers | Backend/controller/notes.controller.js:52-80 | one create, update or delete by someone else keeps the store valid and leaves a user's note in place and unchanged |
| NotesController.StepKeepsOwner | Backend/controller/notes.controller.js:28-83 | one request keeps the store valid, keeps the owner of every note it leaves in place, and never brings back a removed id below the counter |
| NotesController.OthersCannotTouch | Backend/controller/notes.controller.js:52-80 | a note survives unchanged any run of requests that its owner did not make |
| NotesController.OwnerNeverChanges | Backend/controller/notes.controller.js:28-57 | no request changes the owner of a note |
| NotesController.RunForgetsRemoved | Backend/controller/notes.controller.js:82 | a deleted note never comes back |
| UserController.CheckRegistration | Backend/controller/user.controller.js:10-40 | every refusal from the checks is a 400, and passing them means all four fields are present |
| UserController.CheckRegistrationOrder | Backend/controller/user.controller.js:10-40 | the checks run in the source's order: missing fields ("general"), then the address ("email"), then the confirmation ("confirmPassword"), then complexity ("password"); the checks pass exactly when all four hold |
| UserController.FindByEmail | Backend/controller/user.controller.js:42 | the lookup finds the first user whose stored address equals the normalised query, and it fails only when no user holds it |
| UserController.FindFrom | Backend/controller/user.controller.js:42 | a scan of ids `k..n` finds the first match in that range, and finds none only when the range has none |
| UserController.FindFromExtend | Backend/controller/user.controller.js:42-54 | a user added at the end does not change the lookup's answer below it, and a lookup for the new user's address finds it when nobody below holds it |
| UserController.NewUser | Backend/controller/user.controller.js:51-58 | the created record has the trimmed name, the normalised address and the bcrypt digest of the password |
| UserController.EnrolSpec | Backend/controller/user.controller.js:42-77 | after the checks: a user is stored exactly when no stored user holds the normalised address and neither name nor digest is empty; a taken address is the 409 "User already registered" and nothing else is; any other failure is the generic 500; only a 201 changes the collection, inserting the record under the next id |
| UserController.Enrol | Backend/controller/user.controller.js:42-77 | the lookup and the insert on the table give the reply and collection `EnrolSpec` gives |
| UserController.RegisterSpec | Backend/controller/user.controller.js:6-78 | only a 201 changes the collection; it inserts the new record under a fresh id and answers with that record, without its password |
| UserController.RegisterRefusals | Backend/controller/user.controller.js:10-49 | a failed check is answered as such; the answer is 409 "User already registered" exactly when the checks pass and the address is taken |
| UserController.RegisterSucceedsWhen | Backend/controller/user.controller.js:42-77 | a user is created exactly when the checks pass, the address is free, the name does not trim to nothing and the digest is non-empty; any other failure is the generic 500 |
| UserController.Register | Backend/controller/user.controller.js:6-78 | the handler's steps give the reply and collection the specification gives |
| UserController.RegisterKeepsStoreOk | Backend/model/user.js:3-21 | registration keeps every record within the schema and keeps addresses unique |
| UserController.NewUserOk | Backend/model/user.js:3-21 | the record built from a body that passed the checks, with a name that does not trim to nothing and a non-empty digest, meets every schema constraint |
| UserController.InsertKeepsStoreOk | Backend/model/user.js:3-21 | inserting a valid record under the next id, with an address nobody holds, keeps every record within the schema and addresses unique |
| UserController.InsertKeepsUnique | Backend/model/user.js:12 | adding a record whose address nobody holds keeps the unique index satisfied |
| UserController.PasswordStoredHashed | Backend/controller/user.controller.js:51-58 | the stored password is never the plaintext, and `compare` accepts the registered password against it |
| UserController.RegisterFailsOnlyOnBlankName | Backend/controller/user.controller.js:54-77 | once the checks pass and the address is free, the 500 happens exactly when the name is all white space |
| UserController.WeakPasswordRefused | Backend/controller/user.controller.js:34-40 | "abc" with a matching confirmation is refused as weak, and nothing is stored |
| UserController.LoginSpec | Backend/controller/user.controller.js:80-124 | a missing field gives 400; an unknown address or a wrong password gives 401 "Invalid email or password"; success greets the user by name and hands out a token for their id, issued now |
| UserController.Login | Backend/controller/user.controller.js:80-124 | the handler's steps give the reply the specification gives, and the collection is untouched |
| UserController.OnlyRightPasswordLogsIn | Backend/controller/user.controller.js:99-105 | for a stored user, a password logs in when its bcrypt key is the registered password's key, and, for passwords without NUL, only then; below 72 UTF-8 bytes that is exactly the registered password |
| UserController.LongPasswordCutAt72 | Backend/controller/user.controller.js:99-105 | a password that agrees with a registered one of 72 bytes or more in its first 72 bytes logs in, whatever follows |
| UserController.RegisteredUserCanLogIn | Backend/controller/user.controller.js:54-116 | right after registering, the same password logs in, with the address in any case and with white space around it |
| UserController.InsertedUserCanLogIn | Backend/controller/user.controller.js:91-116 | a record inserted with a free address and the digest of `p` is found by any spelling of its address that normalises to it, and logs in with `p`, greeted by name |
| UserController.LoginTokenPassesGate | Backend/controller/user.controller.js:107-109 | the token from a login admits that user at the gate for 365 days |
| RegisterForm.SetValue | Frontend/componets/Register.jsx:88 | only the named field takes the new value |
| RegisterForm.FrontPasswordDecision | Frontend/componets/Register.jsx:26 | the executable check accepts exactly what the client's password pattern matches |
| RegisterForm.PasswordRulesDiffer | Frontend/componets/Register.jsx:26 | the client and server password rules disagree both ways: "Abcd123*" passes only the client, "Abcd123#" only the server |
| RegisterForm.ServerPasswordPassesClient | Frontend/componets/Register.jsx:26 | a password the server accepts, unless it holds '#', passes the client's rule too |
| RegisterForm.FieldError | Frontend/componets/Register.jsx:56-84 | a field's message is empty exactly when it passes its rule; a name is "Name is required" exactly when blank and "Name cannot contain numbers" exactly when it holds a digit; the confirmation passes exactly when it equals the password |
| RegisterForm.FieldOk | Frontend/componets/Register.jsx:56-84 | a name passes when it is not blank and holds no digit, an address when it matches the e-mail pattern, a password when it matches the client's pattern, and a confirmation when it equals the password |
| RegisterForm.Validate | Frontend/componets/Register.jsx:56-84 | `validate` rewrites the entry for its field and keeps every other entry |
| RegisterForm.HasErrors | Frontend/componets/Register.jsx:108 | the errors count as present when some field's message is non-empty |
| RegisterForm.StaleRoundLast | Frontend/componets/Register.jsx:107 | when each `validate` call builds the state from the same rendered errors, the round ends with the last call's map: the last field is validated and every other field keeps its rendered entry |
| RegisterForm.SubmitAsWritten | Frontend/componets/Register.jsx:105-125 | the form is posted exactly when the errors from before the click were all empty; only the confirmation entry is rewritten |
| RegisterForm.UntouchedFormIsPosted | Frontend/componets/Register.jsx:105-125 | a fresh, untouched form is posted although every field but the confirmation fails its rule |
| RegisterForm.ValidateAll | Frontend/componets/Register.jsx:107 | folding `validate` over the fields rewrites each listed field's entry from its value and keeps every other entry |
| RegisterForm.EveryFieldListed | Frontend/componets/Register.jsx:31-36 | `Object.keys(formData)` lists every field |
| RegisterForm.SubmitChecked | Frontend/componets/Register.jsx:105-125 | deciding on the freshly computed errors posts the form exactly when every field passes |
| RegisterForm.UntouchedFormIsHeldBack | Frontend/componets/Register.jsx:105-125 | with that decision the untouched form is not posted |
| RegisterForm.ValidateAllStep | Frontend/componets/Register.jsx:107 | one more field validated extends the fold by one call |
| RegisterForm.ValidateEach | Frontend/componets/Register.jsx:107 | the loop over the fields computes the fold |
| RegisterForm.RegisterPage.constructor | Frontend/componets/Register.jsx:31-38 | the form starts empty, with no errors and nothing posted |
| RegisterForm.RegisterPage.HandleChange | Frontend/componets/Register.jsx:86-90 | the field takes the value and its entry is validated against the password before the change |
| RegisterForm.RegisterPage.HandleSubmit | Frontend/componets/Register.jsx:105-125 | the submit handler as written leaves the errors and posts as `SubmitAsWritten` says, and the form is unchanged |
| RegisterForm.RegisterPage.HandleSubmitChecked | Frontend/componets/Register.jsx:105-125 | the corrected submit handler posts exactly a valid form |
| HomePage.Matches | Frontend/componets/Home.jsx:336 | a note matches when its lower-cased title includes the lower-cased query |
| HomePage.Search | Frontend/componets/Home.jsx:334-337 | every displayed note matches the query, and the list is never longer than the notes |
| HomePage.SearchMembers | Frontend/componets/Home.jsx:334-337 | a note is displayed exactly when it is in the list and its lower-cased title contains the lower-cased query |
| HomePage.SearchEmptyQuery | Frontend/componets/Home.jsx:334-337 | an empty query displays every note |
| HomePage.FilteredPosition | Frontend/componets/Home.jsx:338 | the `i`-th card sits at a position at or after `i` in the full list |
| HomePage.FilteredPositionShows | Frontend/componets/Home.jsx:334-338 | the `i`-th card shows the note at that position of the full list |
| HomePage.FilteredPositionMonotone | Frontend/componets/Home.jsx:334-338 | the cards keep the order of the full list |
| HomePage.KeepOthers | Frontend/componets/Home.jsx:193 | the filter loses one element exactly when the index falls inside the list, and none otherwise |
| HomePage.RemoveAt | Frontend/componets/Home.jsx:193 | deleting by index shortens the list by one exactly when the index is in range, and otherwise keeps its length |
| HomePage.KeepOthersSlices | Frontend/componets/Home.jsx:193 | the filter drops exactly the element at the given position, if that position is in the list, and keeps the others in order |
| HomePage.RemoveAtSlices | Frontend/componets/Home.jsx:193-194 | `confirmDeleteNote` removes exactly the element at the index, keeping the others in order, and the length drops by one; a null or out-of-range index removes nothing |
| HomePage.NoteChange | Frontend/componets/Home.jsx:114-120 | a description longer than 200 characters is ignored; otherwise only the named field is replaced; the title is not capped |
| HomePage.TypingKeepsCap | Frontend/componets/Home.jsx:116-118 | no run of input events takes the description past 200 characters |
| HomePage.SaveRequest | Frontend/componets/Home.jsx:128-136 | a request sent carries the draft's title and description; it is an update of the draft's note when a note is being edited and a create when not |
| HomePage.SaveRequestBlocked | Frontend/componets/Home.jsx:123-126 | nothing is sent exactly when the title or the description is white space only |
| HomePage.SentCreateIsStored | Frontend/componets/Home.jsx:123-136 | every create the page sends passes the server's checks and is stored |
| HomePage.LoadedNoteSavedUnchanged | Frontend/componets/Home.jsx:203-206 | a note loaded for editing and saved untouched is sent back as an update of that note with its own title and description, unless one of them is white space only, when nothing is sent |
| HomePage.EditLoadsWrongNote | Frontend/componets/Home.jsx:203-207 | with a query active, `editNote` loads a note other than the card clicked |
| HomePage.DeleteRemovesWrongNote | Frontend/componets/Home.jsx:167-197 | with a query active, the server is asked to delete the clicked note while the page removes a different one |
| HomePage.DisplayedPosition | Frontend/componets/Home.jsx:338 | a card's index is mapped to the position of that same note in the full list |
| HomePage.DisplayedDeleteRemovesThatNote | Frontend/componets/Home.jsx:192-197 | deleting by the mapped position removes exactly the displayed note, with one copy less of it and nothing else lost |
| HomePage.SliceOutMultiset | Frontend/componets/Home.jsx:193 | cutting one element out loses that element and nothing else |
| HomePage.NotesPage.constructor | Frontend/componets/Home.jsx:24-40 | the page starts with no notes, an empty query and draft, no edit, no delete pending and nothing sent |
| HomePage.NotesPage.ReceiveNotes | Frontend/componets/Home.jsx:67 | the fetched list replaces the notes and nothing else changes |
| HomePage.NotesPage.HandleSearch | Frontend/componets/Home.jsx:209-211 | only the query changes |
| HomePage.NotesPage.HandleNoteChange | Frontend/componets/Home.jsx:114-120 | the draft changes as `NoteChange` says; the error is cleared only when the change is taken |
| HomePage.NotesPage.SaveNote | Frontend/componets/Home.jsx:122-164 | a blank draft sets the error and sends nothing; otherwise one request is sent, and on success the dialog resets |
| HomePage.NotesPage.CloseDialog | Frontend/componets/Home.jsx:155-159 | a successful save leaves an empty draft, no note being edited and no error, and nothing else changes |
| HomePage.NotesPage.EditNote | Frontend/componets/Home.jsx:203-207 | as written: the draft is the note at the card's index in the full list |
| HomePage.NotesPage.EditDisplayedNote | Frontend/componets/Home.jsx:203-207 | corrected: the draft is the note on the clicked card |
| HomePage.NotesPage.RequestDeleteNote | Frontend/componets/Home.jsx:167-190 | as written: a delete for the clicked note is sent, and on success the dialog remembers the card's index |
| HomePage.NotesPage.RequestDeleteDisplayedNote | Frontend/componets/Home.jsx:167-190 | corrected: the dialog remembers where the clicked note sits in the full list |
| HomePage.NotesPage.CancelDelete | Frontend/componets/Home.jsx:199-201 | the dialog forgets its index and the notes stay |
| HomePage.NotesPage.ConfirmDeleteNote | Frontend/componets/Home.jsx:192-197 | the notes become `RemoveAt` of the remembered index, and the dialog forgets it |

## Left out

- HTTP, Express routing, axios, browser storage, navigation, snackbars, timers and rendering are not modelled. The routes and `server.js` are not part of this model. Which body or path parameter reaches a handler is taken as given.
- Database errors, such as an id that does not cast to an ObjectId or a lost connection, are not modelled. The handlers' catch blocks are reached in the model only through the schema's `required` validators.
- ObjectIds are natural numbers from a counter. `req.user.id` and `note.user.toString()` are compared as those numbers.
- The `field` string of a refusal ("general", "email", "confirmPassword" or "password") is one of the four constructors of `UserController.Field`.
- Mongoose's `lowercase` and `trim` setters are taken to apply both to stored values and to the values in `findOne({ email })` filters.
- UserController.LoginSpec: `User.findOne` is taken as the first match by id, which the unique index makes the only match.
- NotesController.DeleteSpec: `note.remove()` is modelled as removing the document. Whether the installed Mongoose version still provides that method is not part of this model.
- AuthGate.Decide: the middleware reads `STATUS_CODE.PAGE_NOT_FOUND` and `MESSAGES.UNAUTHORIZED`, `NOT_FOUND` and `INVALID_TOKEN`. None of them is defined in `contant.js`, so the status of those replies is `None` and their message is not modelled. Reading Express, `res.status(undefined)` at Backend/Middleware/authMiddleware.js:32 most likely makes the reply throw, and the catch block at lines 41-46 then answers 401; this was read, not run, and the model keeps the undefined status rather than guess the library's behaviour.
- bcrypt and jsonwebtoken are records of functions constrained by law predicates; their algorithms are not modelled. Of bcrypt the model keeps the key it hashes (UTF-8 bytes, a terminating zero, a cut at 72 bytes) and idealises the rest: two different keys never collide. The `JWT_SECRET` value and a missing secret are not modelled. The 365-day lifetime is counted in seconds.
- Crypto.RejectsOtherKeys: a password holding the NUL character is left out of the law, because the native library reads the password as a C string and how it treats an inner NUL is not part of this model. JavaScript strings may hold lone surrogates, which `char` cannot; their UTF-8 replacement is not modelled.
- The cost factor 10 of `genSalt` and the salt's randomness are not modelled; the salt is a parameter.
- `toLowerCase` lowers ASCII letters only. String lengths count characters, where JavaScript counts UTF-16 code units, so the 200-character cap agrees only for text without surrogate pairs.
- Request bodies hold strings or nothing. Non-string JSON values are not modelled.
- Constants.Text: the messages are a datatype with one constructor per message. That the nine wordings are pairwise different is not proved.
- `logoutUser`, the `Login.jsx` page, `handleLogout`, `fetchNotes`'s redirect and the `refresh` toggle that triggers a new fetch are not modelled. A fetch is the `ReceiveNotes` method.
- In `requestDeleteNote` the delete is sent before the user confirms. The model keeps that order, but the server's effect of the request is not connected to the page's list.
- The open and closed state of the dialogs is not modelled. Neither is the Cancel button of the edit dialog, which resets `editIndex` (Frontend/componets/Home.jsx:289-292).
- `field_name` is imported from `../helper/constant`, which is not part of this model. Its `description` entry is taken to be "description", the `name` of the description input.
- Concurrency between requests is not modelled: requests run one after another.

## Findings

| source | as written | input that shows it | evidently intended | confidence | as-written member | corrected member |
|---|---|---|---|---|---|---|
| Frontend/componets/Register.jsx:107-109 | `handleSubmit` runs `validate` on every field, then decides on `errors` as they were rendered before the click, because the state updates have not landed yet | a fresh form submitted without typing: the errors map is empty, so the empty form is posted | post only when the freshly validated fields all pass | high (not executed) | RegisterForm.UntouchedFormIsPosted | RegisterForm.UntouchedFormIsHeldBack |
| Frontend/componets/Home.jsx:192-207 | `editNote(index)` and `confirmDeleteNote` use the card's index in the filtered list as an index into the full list | notes with titles "a" and "b", query "b", a click on the only card (index 0): note "a" is loaded for editing, and on delete it is removed locally while "b" is deleted on the server | use the position of the clicked note in the full list | high (not executed) | HomePage.EditLoadsWrongNote | HomePage.DisplayedDeleteRemovesThatNote |
| Backend/controller/notes.controller.js:5-7 | `getNotes` returns the notes of the `userId` in the path, whoever the caller is | user 2 asking for user 1's notes gets them | a caller sees only their own notes, as update and delete check | medium (not executed) | NotesController.GetNotesIgnoresCaller | NotesController.GetOwnNotesSpec |
