# Clinic app core, modelled in Dafny

The system is a desktop clinic application built on Electron. Its main process (`main.js`) keeps five
NeDB collections: accounts (`users`), patient profiles, doctor profiles, appointments and file
metadata. It also keeps one module-level session (`currentUser`) and answers IPC requests from the
renderer pages. Those requests are login, registration, session read and logout, the patient roster,
scheduling, file upload metadata, and the per-patient appointment and file queries. The database module
(`src/database/db.js`) declares the unique indexes and wraps bcrypt in two guards. The renderer pages
validate their forms before they call the main process, then navigate or show a message. The two
dashboards compute ages, format dates and check a typed date-time before they send a scheduling request.

This project models that core:

- `values.dfy` (`JsValues`): JavaScript values, objects as maps, missing properties and truthiness.
- `nedb.dfy` (`NeDb`): query equality, `findOne`, `find` and `sort`.
- `passwords.dfy` (`Passwords`): the bcrypt guards, with bcrypt left uninterpreted.
- `records.dfy` (`Records`): the collections' documents and the unique-index inserts.
- `session.dfy` (`Session`): the login checks and the merged session object.
- `main_process.dfy` (`MainProcess`): the handlers, as methods of a class `Clinic` that owns the collections and `currentUser`.
- `navigation.dfy` (`Navigation`): the `navigate-to` path split.
- `pages.dfy` (`Pages`): the first-failing-rule chain shared by the validators, and the role guard.
- `login_form.dfy` (`LoginForm`) and `register_form.dfy` (`RegisterForm`): the forms' validators, payloads and follow-up steps.
- `calendar.dfy` (`Calendar`): the completed-years computation.
- `patient_dashboard.dfy` (`PatientDashboard`) and `doctor_dashboard.dfy` (`DoctorDashboard`): the dashboards' helpers and the schedule button.

Some things are parameters of the model rather than computed by it: the ids NeDB generates, the bcrypt
salt, the clock (`now`, `today`), and what `new Date(...)` makes of a string (an instant or calendar
date, or None when `getTime()` is NaN).

The model follows the code as written, including these behaviours:

- A successful login returns and stores the merged object with the account's password hash in it (`Session.SessionFor`, `MainProcess.PatientRegisterThenLogin`). The password is not stripped.
- `bcryptjs` rejects a password that is not a string. A truthy non-string password (`true`, a Date) therefore makes login answer 'Erro no servidor' and registration answer 'Erro no registro' with nothing inserted (`Passwords.ComparePassword`, `Passwords.HashPassword`, `Session.LoginCheckOrder`).
- A registration whose profile insert fails leaves the new account in `users`, with no compensating delete (`MainProcess.Clinic.UserRegister`).
- The file handlers use `db.patientFiles`, which the database module never defines (it defines `medical_files`). The model gives `Clinic` a `patientFiles` store that starts as None. With None, an upload passes validation and then gets the server error, and the file query gets its error reply.
- The doctor dashboard's scheduling request uses field names that `schedule-appointment` does not read (`DoctorDashboard.ButtonRequestIsIncomplete`). When the doctor's profile was found at login, the `_id` it sends as `doctorUserId` is the doctors-collection id, not the account id its comment expects (`DoctorDashboard.DoctorUserIdIsProfileId`). Without a profile it is the account id.

## Model

| member | source | states |
|---|---|---|
| NeDb.FindFirst | main.js:86-89 | `findOne`: None exactly when no document is selected; otherwise a selected document that no earlier document precedes (on the unique-indexed fields the handlers query, the only one) |
| NeDb.Where | main.js:332 | `find(query)`: exactly the selected documents, each as many times as stored (multiset filter) |
| NeDb.SortBy | main.js:332 | `sort`: the result is ordered by the key and is a permutation of the input |
| NeDb.SortByText | main.js:253 | `find({})` walks the `_id` index: the result is ascending in JavaScript's string order of the key and is a permutation of the input |
| NeDb.TextLessTransitive | main.js:253 | JavaScript's `<` on strings, which orders the `_id` index, is transitive |
| NeDb.TextLessTotal | main.js:253 | two different strings are always ordered one way or the other |
| NeDb.WhereKeepsTextOrder | main.js:332 | `find` keeps its candidates' order: selecting from a sequence ascending by `_id` gives one ascending by `_id` |
| NeDb.SortByKeepsTextOrder | main.js:332 | the cursor's sort is stable: sorting a sequence ascending by `_id` leaves equal sort keys in `_id` order |
| NeDb.FindSorted | main.js:332 | `find(query).sort(...)` without an index on the query field: sorted by the key, equal keys in `_id` order, and exactly the selected documents of the collection |
| Passwords.HashPassword | src/database/db.js:92-95 | no hash exactly for a falsy password (its own throw) or a non-string one (bcryptjs's rejection); otherwise bcrypt's hash of the string with cost factor 10 |
| Passwords.ComparePassword | src/database/db.js:98-101 | false whenever the candidate or the hash is falsy, whatever bcrypt would say; a rejection exactly when both are truthy and one is not a string; otherwise bcrypt's verdict on the two strings |
| Passwords.HashThenCompare | src/database/db.js:92-101 | round trip: with a sound bcrypt, a non-empty string password is hashed and compares true against its own hash |
| Records.InsertAccount | src/database/db.js:58-60 | the insert is refused exactly when the `_id` or email is already indexed; otherwise the account is appended and both unique indexes still hold |
| Records.InsertProfile | src/database/db.js:61-66 | the insert is refused exactly when the `_id` or `userId` is already indexed; otherwise the profile is appended and the indexes still hold |
| Records.InsertAppointment | main.js:283-288 | the insert is refused exactly on a duplicate `_id`; otherwise the appointment is appended and ids stay unique |
| Records.InsertFile | main.js:314-319 | the insert is refused exactly on a duplicate `_id`; otherwise the record is appended and ids stay unique |
| Session.FindAccount | main.js:86-91 | the account lookup by email: a stored account whose email matches, or None exactly when none matches |
| Session.FindAccountUnique | src/database/db.js:58-60 | with the email index in place, the lookup returns the one account holding that email |
| Session.LookupProfile | main.js:98-104 | the profile lookup searches `patients` exactly for the claim 'patient' and `doctors` otherwise, and returns a profile with the account's id as `userId`, or None exactly when there is none |
| Session.LookupProfileUnique | src/database/db.js:61-66 | with the `userId` index in place, the profile lookup is determined |
| Session.Authenticate | main.js:91-117 | success only for a stored account with the email, a user type that is `===` the claimed one (never for two Dates, which are distinct objects) and an accepted password; a failure carries one of the three messages or 'Erro no servidor'; 'Usuário não encontrado' exactly when no email matches |
| Session.LoginCheckOrder | main.js:91-117 | which failure wins: a type mismatch under `!==` (two Dates always differ) is reported whatever the password, a wrong password only with the right type; 'Erro no servidor' exactly when the type is right and bcrypt rejects a non-string argument; success exactly when the type is right and bcrypt accepts |
| Session.SessionFor | main.js:106-111 | the merged session: profile values win on shared keys, the account's other fields (the hash among them) are kept, `userId` is the account id, and `patientId`/`doctorId` are set exactly for a found profile with a non-empty id under the matching claim; there are no other keys |
| Session.SessionOfPatient | main.js:106-113 | a patient's session: `_id` and email from the profile, role and hash from the account, `patientId` = profile id, no `doctorId` |
| Session.SessionOfDoctor | main.js:106-113 | a doctor's session: `_id` is the doctors-collection id, `doctorId` names it, no `patientId` |
| Session.SessionWithoutProfile | main.js:98-113 | a missing profile does not fail the login: the session is the account plus `userId`, with neither `patientId` nor `doctorId` |
| MainProcess.NewAccount | main.js:134-139 | the stored account carries the hash, never the password, and the given email, user type and creation instant |
| MainProcess.NewProfile | main.js:147-163 | the profile carries `userId` = new account id, name and email; birthDate and healthPlan exactly for 'patient', crm and specialty for any other user type |
| MainProcess.NewAppointment | main.js:273-282 | the appointment copies the six request fields, the given instant, and gets status 'scheduled' |
| MainProcess.NewFile | main.js:304-313 | the file record keeps the path as `originalPath` and takes a falsy description as '' |
| MainProcess.PatientRegisterThenLogin | main.js:83-175 | after a successful patient registration, logging in with the same email, password and type succeeds; the session carries the email, the role, the hash, and the new profile id as `_id`, `patientId` |
| MainProcess.Clinic.constructor | main.js:13 | start-up state: the given collections, no `patientFiles` collection, no session; the indexes hold |
| MainProcess.Clinic.UserLogin | main.js:83-118 | a failed check returns its message and leaves `currentUser` unchanged; success stores and returns the merged session of the authenticated account and its looked-up profile |
| MainProcess.Clinic.UserRegister | main.js:123-175 | 'Email já está em uso' exactly when the email is found, and then nothing changes; a falsy or non-string password fails with 'Erro no registro' before any insert; success exactly when all four steps pass, appending one account and one profile to the right collection; a failed profile insert keeps the account |
| MainProcess.Clinic.GetUserData | main.js:180 | the session as stored, or none |
| MainProcess.Clinic.UserLogout | main.js:185-186 | the session is cleared whatever it held, so a second logout changes nothing |
| MainProcess.Clinic.GetAllPatients | main.js:250-263 | every patient profile, each once per stored copy, in ascending `_id` order |
| MainProcess.Clinic.ScheduleAppointment | main.js:266-294 | a falsy field fails with 'Dados incompletos para agendamento.' and stores nothing; success exactly when the fields are present and the id is new, appending the 'scheduled' appointment |
| MainProcess.Clinic.UploadPatientFile | main.js:297-325 | a falsy field fails before the insert; without the collection the server error is returned; success appends the record; any failure leaves the store unchanged |
| MainProcess.Clinic.GetPatientAppointments | main.js:328-342 | a falsy id fails before any query; otherwise exactly the matching appointments, earliest first, and appointments with the same date in ascending `_id` order |
| MainProcess.Clinic.GetPatientFiles | main.js:345-359 | a falsy id fails before any query; a missing collection gives the error reply; otherwise exactly the matching records, newest upload first, and records with the same upload instant in ascending `_id` order |
| Navigation.Split | main.js:220 | `split('?')`: at least one piece and no piece holds the separator |
| Navigation.SplitThenJoin | main.js:220 | round trip: the pieces joined with the separator give back the page string |
| Navigation.NavigateTo | main.js:219-234 | a repaint is forced only when the cache is bypassed |
| Navigation.PlainPage | main.js:220-221 | a page without '?' loads `src/pages/<page>.html` with no cache bypass and no repaint |
| Navigation.PageWithQuery | main.js:220-233 | with a query, the path before '?' names the file; the cache is bypassed exactly when the query contains 'fresh=true'; a repaint also needs the login page |
| Navigation.ExtraQueryIgnored | main.js:220 | anything after a second '?' changes nothing |
| Pages.FirstFailing | src/pages/auth/register.js:41-66 | none exactly when every rule passes; otherwise the message of a failing rule that only passing rules precede |
| Pages.FirstFailingIs | src/pages/auth/login.js:28-38 | a failing rule preceded only by passing rules decides the message, whatever follows |
| Pages.OrElse | src/pages/auth/login.js:73 | `message || fallback` on strings |
| Pages.RoleGuard | src/pages/dashboard/patient/dashboard.js:17-20 | a redirect to the login page exactly when there is no session or its user type is not the page's role |
| LoginForm.ValidateLogin | src/pages/auth/login.js:23-39 | the validator is the first-failing-rule chain of its two rules in source order |
| LoginForm.LoginMessages | src/pages/auth/login.js:28-38 | 'Todos os campos são obrigatórios' exactly when a field is empty; 'Email inválido' exactly when all are filled and the email lacks '@' or '.'; valid exactly when both rules hold |
| LoginForm.Credentials | src/pages/auth/login.js:62-66 | the submitted object has exactly email, password and userType, as strings |
| LoginForm.AfterLogin | src/pages/auth/login.js:70-74 | success goes to `dashboard/<userType>/dashboard`; failure shows the message, or 'Credenciais inválidas' when it is empty |
| LoginForm.ValidatedLoginReachesBcrypt | src/pages/auth/login.js:28-38 | a validated form's credentials get past the compare guard: bcrypt decides the password against any non-empty string hash and rejects only a non-string one |
| LoginForm.HandlerFailuresShown | src/pages/auth/login.js:73 | every login-handler failure is shown as it is, never as the fallback |
| LoginForm.LoginLandsOnDashboard | src/pages/auth/login.js:71 | after success the role's dashboard file is loaded with no cache bypass |
| RegisterForm.ValidateRegister | src/pages/auth/register.js:34-67 | the validator is the first-failing-rule chain of its five rules in source order |
| RegisterForm.RegisterMessages | src/pages/auth/register.js:41-66 | each of the five messages exactly when the earlier rules pass and its rule fails; valid exactly when all pass |
| RegisterForm.RegisterPayload | src/pages/auth/register.js:90-105 | the submitted object: the four basic fields plus birthDate and healthPlan for 'patient', crm and specialty otherwise, and no other keys |
| RegisterForm.PayloadMatchesProfile | src/pages/auth/register.js:99-105 | the page and the register handler split roles the same way; a validated doctor's crm and patient's birthDate are stored non-empty |
| RegisterForm.ValidatedPayloadHashes | src/pages/auth/register.js:51-54 | a validated password always gets past the hash guard |
| RegisterForm.AfterRegister | src/pages/auth/register.js:109-121 | success goes to 'auth/login?fresh=true'; failure shows the message, or 'Erro no registro' when it is empty |
| RegisterForm.FreshLoginLoad | src/pages/auth/register.js:118 | 'auth/login?fresh=true' loads the login page, bypasses the cache and forces a repaint |
| RegisterForm.RegisterReturnsToFreshLogin | src/pages/auth/register.js:109-118 | after a successful registration the login page is loaded fresh and repainted |
| Calendar.YearsBetween | src/pages/dashboard/patient/dashboard.js:174-179 | the age is the number of anniversaries reached: the n-th anniversary is on or before today and the next is after |
| Calendar.AgeIsUnique | src/pages/dashboard/doctor/dashboard.js:108-112 | only one n has that property, so the age is determined by it |
| Calendar.NegativeAgeMeansFutureBirth | src/pages/dashboard/patient/dashboard.js:180 | the computed age is negative exactly when the birth date is after today |
| PatientDashboard.FormatDate | src/pages/dashboard/patient/dashboard.js:153-159 | '--/--/----' exactly for a falsy argument, 'Data inválida' exactly for an unparseable one, otherwise the parsed instant |
| PatientDashboard.FormatDateTime | src/pages/dashboard/patient/dashboard.js:161-166 | '--/--/---- --:--' exactly for a falsy argument, 'Data/Hora inválida' exactly for an unparseable one, otherwise the parsed instant |
| PatientDashboard.CalculateAge | src/pages/dashboard/patient/dashboard.js:168-181 | '--' exactly for a falsy or unparseable birth date or one after today; otherwise the completed years |
| PatientDashboard.QueryId | src/pages/dashboard/patient/dashboard.js:51 | `patientId` when truthy, otherwise `_id` |
| PatientDashboard.QueryIdAfterLogin | src/pages/dashboard/patient/dashboard.js:83 | after a patient login the query id is the profile id; without a profile it falls back to the account id |
| PatientDashboard.GuardAfterLogin | src/pages/dashboard/patient/dashboard.js:17-20 | the page keeps exactly the sessions of accounts registered as patients, and a logged-out user is redirected |
| PatientDashboard.RegisteredPatientAge | src/pages/dashboard/patient/dashboard.js:33-37 | a patient registered through the form shows '--' as age only for an unparseable or future birth date |
| DoctorDashboard.CalculateAge | src/pages/dashboard/doctor/dashboard.js:104-114 | '--' exactly for a falsy birth date; NaN for an unparseable one; 0 for a future one; otherwise the completed years |
| DoctorDashboard.AgeVariantsCompared | src/pages/dashboard/doctor/dashboard.js:113 | the two variants agree except for a future birth date ('--' against 0) and an unparseable one ('--' against NaN) |
| DoctorDashboard.FormatDate | src/pages/dashboard/doctor/dashboard.js:97-102 | '--/--/----' exactly for a falsy argument; an unparseable one reaches the formatter as an invalid Date; otherwise the UTC day and month, with a year from 0 to 99 read as 1900 plus that year |
| DoctorDashboard.FormatDateShowsUtcDate | src/pages/dashboard/doctor/dashboard.js:100 | from year 100 on the date shown is the UTC date; '0050-06-01' is shown as 1950 |
| DoctorDashboard.RenderThenParse | src/pages/dashboard/doctor/dashboard.js:135-136 | every date-time written with a 4-digit year and 2-digit fields passes the test and reads back as its fields |
| DoctorDashboard.ParseThenRender | src/pages/dashboard/doctor/dashboard.js:135-136 | every string that passes the test is such a rendering, so the test accepts exactly those strings |
| DoctorDashboard.ScheduleClick | src/pages/dashboard/doctor/dashboard.js:117-161 | the first failing guard's alert (not a doctor, empty prompt, bad shape, unparseable date) and no request; otherwise a request with exactly the five fields |
| DoctorDashboard.ButtonRequestIsIncomplete | src/pages/dashboard/doctor/dashboard.js:155-161 | every request the button sends fails the required-field check of the schedule handler |
| DoctorDashboard.DoctorUserIdIsProfileId | src/pages/dashboard/doctor/dashboard.js:126 | after a doctor's login the `doctorUserId` sent is the doctors-collection id |
| DoctorDashboard.GuardAfterLogin | src/pages/dashboard/doctor/dashboard.js:19-22 | the page keeps exactly the sessions of accounts registered as doctors, and a logged-out user is redirected |

## Left out

- Window management is not modelled: window creation, `forceUIRefresh`, focus, and the page loads after logout. `Navigation.NavigateTo` only says which file is loaded and whether the reload and the repaint happen.
- The native file picker and opening a file with the OS are not modelled. They are foreign I/O.
- NeDB persistence, callbacks and errors are not modelled. So the replies that only a failing datastore produces are left out: 'Erro ao buscar pacientes.' and 'Erro ao buscar consultas.'. Login's 'Erro no servidor' is modelled only where bcrypt rejects its arguments, not where the datastore fails.
- A handler called with no argument at all is not modelled. `user-login` and `user-register` would throw inside their `try` and answer their error reply. `schedule-appointment` and `upload-patient-file` destructure the argument in their parameter list, outside the `try`, so the IPC call itself rejects. `get-patient-appointments` and `get-patient-files` take an undefined id, which the model covers: they answer 'ID do Paciente não fornecido.'.
- MainProcess.Clinic.GetAllPatients: states the success reply only, because its error reply needs a datastore failure.
- NeDb.SortByText: compares Unicode scalar values where JavaScript compares UTF-16 code units. The two orders differ only for characters above U+FFFF, which NeDB's generated alphanumeric ids never contain.
- bcrypt's internals, NeDB's `_id` generation, the salt and the clock are parameters.
- Parsing with `new Date` is an input: the instant or calendar date, or None for NaN. Appointments store the parsed instant, so an Invalid Date in a stored appointment is not modelled.
- Locale formatting (`toLocaleDateString`, `toLocaleString`) is not modelled. The formatters return the instant or date handed to it.
- The engine's text for an invalid Date is not modelled either.
- RegisterForm.ValidateRegister: the six-character rule counts Unicode scalar values, where JavaScript's `length` counts UTF-16 code units. The two differ on characters outside the Basic Multilingual Plane.
- DOM rendering is not modelled: list templates, fallback texts such as `healthPlan || 'Particular'`, alerts, button states, the role-field toggle on the registration page, and the form reset on a `fresh` login page.
- The patient dashboard's view-file buttons and the doctor dashboard's upload button are not modelled. The upload button is only an alert placeholder.
- `preload.js` is not part of this model. Its channel names do not match the handlers, so the pages and handlers are modelled separately, each as written.
- Values are limited to undefined, null, booleans, strings and dates. A number or an object passed where the handlers expect a string is outside the model.
