/** The Electron main process: the five collections, the module-level `currentUser`, and the
    IPC handlers for authentication, scheduling, file metadata and the patient queries. */
module MainProcess {
  import opened JsValues
  import opened NeDb
  import opened Passwords
  import opened Records
  import opened Session

  const EmailInUse := "Email já está em uso"
  const RegisterError := "Erro no registro"
  const IncompleteAppointment := "Dados incompletos para agendamento."
  const AppointmentServerError := "Erro no servidor ao marcar consulta."
  const IncompleteUpload := "Dados incompletos para upload do arquivo."
  const UploadServerError := "Erro no servidor ao registrar arquivo."
  const MissingPatientId := "ID do Paciente não fornecido."
  const FilesQueryError := "Erro ao buscar arquivos."

  /** `userData.userType === 'patient'`: picks both the profile shape and its collection. */
  predicate IsPatient(userData: Doc)
  {
    Get(userData, "userType") == Str("patient")
  }

  /** The `baseUser` document of `user-register`: the bcrypt hash is stored, not the password. */
  function NewAccount(userData: Doc, id: string, hash: string, now: int): (a: Account)
    ensures a.id == id && a.password == Str(hash) && a.createdAt == now
    ensures a.email == Get(userData, "email") && a.userType == Get(userData, "userType")
  {
    Account(id, Get(userData, "email"), Str(hash), Get(userData, "userType"), now)
  }

  /** The `specificData` document: `userId`, name and email, plus birthDate / healthPlan for
      a patient and crm / specialty for any other user type. */
  function NewProfile(userData: Doc, id: string, accountId: string): (p: Profile)
    ensures p.id == id && p.userId == accountId
    ensures p.name == Get(userData, "name") && p.email == Get(userData, "email")
    ensures p.PatientProfile? <==> IsPatient(userData)
    ensures p.PatientProfile? ==> p.birthDate == Get(userData, "birthDate") && p.healthPlan == Get(userData, "healthPlan")
    ensures p.DoctorProfile? ==> p.crm == Get(userData, "crm") && p.specialty == Get(userData, "specialty")
  {
    if IsPatient(userData) then
      PatientProfile(id, accountId, Get(userData, "name"), Get(userData, "email"),
                     Get(userData, "birthDate"), Get(userData, "healthPlan"))
    else
      DoctorProfile(id, accountId, Get(userData, "name"), Get(userData, "email"),
                    Get(userData, "crm"), Get(userData, "specialty"))
  }

  /** The six properties `schedule-appointment` destructures, all truthy. */
  predicate ScheduleFieldsPresent(req: Doc)
  {
    Truthy(Get(req, "patientId")) && Truthy(Get(req, "doctorId")) && Truthy(Get(req, "appointmentDate")) &&
    Truthy(Get(req, "reason")) && Truthy(Get(req, "doctorName")) && Truthy(Get(req, "patientName"))
  }

  /** The appointment document: the request's fields, the given instant, status 'scheduled'. */
  function NewAppointment(req: Doc, id: string, instant: int, now: int): (a: Appointment)
    ensures a.id == id && a.date == instant && a.createdAt == now && a.status == "scheduled"
    ensures a.patientId == Get(req, "patientId") && a.doctorId == Get(req, "doctorId")
    ensures a.doctorName == Get(req, "doctorName") && a.patientName == Get(req, "patientName")
    ensures a.reason == Get(req, "reason")
  {
    Appointment(id, Get(req, "patientId"), Get(req, "doctorId"), Get(req, "doctorName"),
                Get(req, "patientName"), instant, Get(req, "reason"), "scheduled", now)
  }

  /** The six properties `upload-patient-file` requires truthy (description is optional). */
  predicate UploadFieldsPresent(req: Doc)
  {
    Truthy(Get(req, "patientId")) && Truthy(Get(req, "doctorId")) && Truthy(Get(req, "filePath")) &&
    Truthy(Get(req, "fileName")) && Truthy(Get(req, "doctorName")) && Truthy(Get(req, "patientName"))
  }

  /** The file-metadata document: the path is kept as `originalPath`, a falsy description
      becomes '' and a truthy one is kept. */
  function NewFile(req: Doc, id: string, now: int): (f: FileRecord)
    ensures f.id == id && f.uploadDate == now && f.originalPath == Get(req, "filePath")
    ensures f.patientId == Get(req, "patientId") && f.doctorId == Get(req, "doctorId")
    ensures f.fileName == Get(req, "fileName") && f.doctorName == Get(req, "doctorName")
    ensures f.patientName == Get(req, "patientName")
    ensures Truthy(Get(req, "description")) ==> f.description == Get(req, "description")
    ensures !Truthy(Get(req, "description")) ==> f.description == Str("")
  {
    FileRecord(id, Get(req, "patientId"), Get(req, "doctorId"), Get(req, "doctorName"),
               Get(req, "patientName"), Get(req, "filePath"), Get(req, "fileName"),
               if Truthy(Get(req, "description")) then Get(req, "description") else Str(""), now)
  }

  /** Sort keys: appointments ascending by date, files descending by upload instant. */
  function AppointmentDate(a: Appointment): int { a.date }
  function NewestFirst(f: FileRecord): int { -f.uploadDate }
  function ProfileId(p: Profile): string { p.id }
  function AppointmentId(a: Appointment): string { a.id }
  function FileId(f: FileRecord): string { f.id }

  /** Round trip of registration and login for a patient: once both inserts of
      `user-register` went through, logging in with the same email, password and user type
      passes all three checks, and the session carries the registered email and role, the
      stored hash (not the password) and the new profile's id as `_id` and patientId. */
  lemma PatientRegisterThenLogin(users: seq<Account>, patients: seq<Profile>, doctors: seq<Profile>, b: Bcrypt,
                                 userData: Doc, accountId: string, profileId: string, salt: string, now: int,
                                 credentials: Doc)
    requires Sound(b) && UniqueAccounts(users) && UniqueProfiles(patients)
    requires IsPatient(userData) && Get(userData, "email") != Undefined
    requires Get(userData, "password").Str? && Get(userData, "password").s != "" && profileId != ""
    requires FindAccount(users, Get(userData, "email")).None?
    requires InsertAccount(users, NewAccount(userData, accountId, b.hash(Get(userData, "password").s, SaltRounds, salt), now)).Some?
    requires InsertProfile(patients, NewProfile(userData, profileId, accountId)).Some?
    requires Get(credentials, "email") == Get(userData, "email")
    requires Get(credentials, "password") == Get(userData, "password")
    requires Get(credentials, "userType") == Get(userData, "userType")
    ensures var account := NewAccount(userData, accountId, b.hash(Get(userData, "password").s, SaltRounds, salt), now);
            var profile := NewProfile(userData, profileId, accountId);
            var users' := users + [account];
            var patients' := patients + [profile];
            Authenticate(users', b, credentials) == Ok(account) &&
            var s := SessionFor(account, LookupProfile(patients', doctors, Get(credentials, "userType"), accountId),
                                Get(credentials, "userType"));
            Get(s, "email") == Get(userData, "email") && Get(s, "userType") == Str("patient") &&
            Get(s, "password") == Str(b.hash(Get(userData, "password").s, SaltRounds, salt)) &&
            Get(s, "_id") == Str(profileId) && Get(s, "patientId") == Str(profileId) &&
            Get(s, "userId") == Str(accountId)
  {
    var hash := b.hash(Get(userData, "password").s, SaltRounds, salt);
    var account := NewAccount(userData, accountId, hash, now);
    var profile := NewProfile(userData, profileId, accountId);
    var users' := users + [account];
    var patients' := patients + [profile];
    assert account in users';
    HashThenCompare(b, Get(userData, "password").s, salt);
    LoginCheckOrder(users', b, credentials, account);
    assert profile in patients';
    LookupProfileUnique(patients', doctors, Get(credentials, "userType"), profile);
    SessionOfPatient(account, profile);
  }

  class Clinic {
    const bcrypt: Bcrypt
    var users: seq<Account>
    var patients: seq<Profile>
    var doctors: seq<Profile>
    var appointments: seq<Appointment>
    /** `db.patientFiles`, which the file handlers use. The database module defines no such
        collection (its file metadata lives in `medical_files`), so it starts as None. */
    var patientFiles: Option<seq<FileRecord>>
    var currentUser: Option<Doc>

    /** The unique indexes hold, each profile collection holds its own shape, and a session
        names an account that exists. */
    ghost predicate Valid()
      reads this
    {
      && UniqueAccounts(users)
      && UniqueProfiles(patients) && (forall p :: p in patients ==> p.PatientProfile?)
      && UniqueProfiles(doctors) && (forall p :: p in doctors ==> p.DoctorProfile?)
      && UniqueAppointments(appointments)
      && (patientFiles.Some? ==> UniqueFiles(patientFiles.value))
      && (currentUser.Some? ==> exists a :: a in users && Get(currentUser.value, "userId") == Str(a.id))
    }

    /** Start-up: the collections as autoload finds them, no `patientFiles` collection, and
        `currentUser = null`. */
    constructor (bcrypt: Bcrypt, users: seq<Account>, patients: seq<Profile>, doctors: seq<Profile>,
                 appointments: seq<Appointment>)
      requires UniqueAccounts(users) && UniqueProfiles(patients) && UniqueProfiles(doctors)
      requires (forall p :: p in patients ==> p.PatientProfile?) && (forall p :: p in doctors ==> p.DoctorProfile?)
      requires UniqueAppointments(appointments)
      ensures Valid()
      ensures this.bcrypt == bcrypt && this.users == users && this.patients == patients
      ensures this.doctors == doctors && this.appointments == appointments
      ensures patientFiles == None && currentUser == None
    {
      this.bcrypt := bcrypt;
      this.users := users;
      this.patients := patients;
      this.doctors := doctors;
      this.appointments := appointments;
      this.patientFiles := None;
      this.currentUser := None;
    }

    /** `user-login`: a failed check leaves `currentUser` as it was; success stores the merged
        session and returns that same object. */
    method UserLogin(credentials: Doc) returns (r: Reply<Doc>)
      requires Valid()
      modifies this`currentUser
      ensures Valid()
      ensures Authenticate(users, bcrypt, credentials).Fail? ==>
                r == Fail(Authenticate(users, bcrypt, credentials).message) && currentUser == old(currentUser)
      ensures Authenticate(users, bcrypt, credentials).Ok? ==>
                var account := Authenticate(users, bcrypt, credentials).data;
                var claimed := Get(credentials, "userType");
                r == Ok(SessionFor(account, LookupProfile(patients, doctors, claimed, account.id), claimed)) &&
                currentUser == Some(r.data)
    {
      var user := Authenticate(users, bcrypt, credentials);
      if user.Fail? {
        return Fail(user.message);
      }
      var claimed := Get(credentials, "userType");
      var userData := LookupProfile(patients, doctors, claimed, user.data.id);
      currentUser := Some(SessionFor(user.data, userData, claimed));
      r := Ok(currentUser.value);
    }

    /** `user-register`: the email check, the hash, the account insert and the profile insert,
        each failure answering at once. A failed profile insert leaves the account in place. */
    method UserRegister(userData: Doc, accountId: string, profileId: string, salt: string, now: int)
      returns (r: Reply<()>)
      requires Valid()
      modifies this`users, this`patients, this`doctors
      ensures Valid()
      ensures r in {Ok(()), Fail(EmailInUse), Fail(RegisterError)}
      ensures r == Fail(EmailInUse) <==> FindAccount(old(users), Get(userData, "email")).Some?
      ensures FindAccount(old(users), Get(userData, "email")).Some? ==>
                users == old(users) && patients == old(patients) && doctors == old(doctors)
      ensures FindAccount(old(users), Get(userData, "email")).None? &&
              HashPassword(bcrypt, Get(userData, "password"), salt).None? ==>
                r == Fail(RegisterError) && users == old(users) && patients == old(patients) && doctors == old(doctors)
      ensures users == old(users) ||
              (HashPassword(bcrypt, Get(userData, "password"), salt).Some? &&
               users == old(users) + [NewAccount(userData, accountId,
                                                 HashPassword(bcrypt, Get(userData, "password"), salt).value, now)])
      ensures users == old(users) ==> patients == old(patients) && doctors == old(doctors) && r.Fail?
      ensures FindAccount(old(users), Get(userData, "email")).None? &&
              HashPassword(bcrypt, Get(userData, "password"), salt).Some? &&
              InsertAccount(old(users), NewAccount(userData, accountId,
                            HashPassword(bcrypt, Get(userData, "password"), salt).value, now)).Some? ==>
                users == old(users) + [NewAccount(userData, accountId,
                                                  HashPassword(bcrypt, Get(userData, "password"), salt).value, now)]
      ensures users != old(users) ==>
                var profile := NewProfile(userData, profileId, accountId);
                var target := if IsPatient(userData) then old(patients) else old(doctors);
                if InsertProfile(target, profile).Some? then
                  r == Ok(()) &&
                  (if IsPatient(userData) then patients == old(patients) + [profile] && doctors == old(doctors)
                   else doctors == old(doctors) + [profile] && patients == old(patients))
                else
                  r == Fail(RegisterError) && patients == old(patients) && doctors == old(doctors)
      ensures r.Ok? <==>
                FindAccount(old(users), Get(userData, "email")).None? &&
                HashPassword(bcrypt, Get(userData, "password"), salt).Some? &&
                InsertAccount(old(users), NewAccount(userData, accountId,
                              HashPassword(bcrypt, Get(userData, "password"), salt).value, now)).Some? &&
                InsertProfile(if IsPatient(userData) then old(patients) else old(doctors),
                              NewProfile(userData, profileId, accountId)).Some?
    {
      var existingUser := FindAccount(users, Get(userData, "email"));
      if existingUser.Some? {
        return Fail(EmailInUse);
      }
      var hashedPassword := HashPassword(bcrypt, Get(userData, "password"), salt);
      if hashedPassword.None? {
        return Fail(RegisterError);
      }
      var baseUser := NewAccount(userData, accountId, hashedPassword.value, now);
      var newUsers := InsertAccount(users, baseUser);
      if newUsers.None? {
        return Fail(RegisterError);
      }
      ghost var before := users;
      users := newUsers.value;
      assert forall a :: a in before ==> a in users;
      var specificData := NewProfile(userData, profileId, accountId);
      if IsPatient(userData) {
        var newPatients := InsertProfile(patients, specificData);
        if newPatients.None? {
          return Fail(RegisterError);
        }
        patients := newPatients.value;
      } else {
        var newDoctors := InsertProfile(doctors, specificData);
        if newDoctors.None? {
          return Fail(RegisterError);
        }
        doctors := newDoctors.value;
      }
      r := Ok(());
    }

    /** `get-user-data`: the session object itself, password hash included, or null. */
    method GetUserData() returns (r: Option<Doc>)
      ensures r == currentUser
    {
      r := currentUser;
    }

    /** `user-logout`: clears the session whatever it held; calling it again changes nothing. */
    method UserLogout()
      requires Valid()
      modifies this`currentUser
      ensures Valid() && currentUser == None
    {
      currentUser := None;
    }

    /** `get-all-patients`: every patient profile, each once per stored copy, with no role
        check. `find({})` has no index to narrow it, so it walks the `_id` index: the
        profiles come back in ascending `_id` order, not in insertion order. */
    method GetAllPatients() returns (r: Reply<seq<Profile>>)
      ensures r.Ok? && multiset(r.data) == multiset(patients)
      ensures r.Ok? ==> AscendingText(r.data, ProfileId)
    {
      r := Ok(SortByText(patients, ProfileId));
    }

    /** `schedule-appointment`: a falsy field fails before any insert; otherwise the
        appointment is stored with status 'scheduled' and returned. */
    method ScheduleAppointment(req: Doc, id: string, instant: int, now: int) returns (r: Reply<Appointment>)
      requires Valid()
      modifies this`appointments
      ensures Valid()
      ensures !ScheduleFieldsPresent(req) ==> r == Fail(IncompleteAppointment) && appointments == old(appointments)
      ensures ScheduleFieldsPresent(req) && (exists a :: a in old(appointments) && a.id == id) ==>
                r == Fail(AppointmentServerError) && appointments == old(appointments)
      ensures r.Ok? <==> ScheduleFieldsPresent(req) && forall a :: a in old(appointments) ==> a.id != id
      ensures r.Ok? ==> r.data == NewAppointment(req, id, instant, now) && r.data.status == "scheduled" &&
                        appointments == old(appointments) + [r.data]
    {
      if !ScheduleFieldsPresent(req) {
        return Fail(IncompleteAppointment);
      }
      var appointment := NewAppointment(req, id, instant, now);
      var inserted := InsertAppointment(appointments, appointment);
      if inserted.None? {
        return Fail(AppointmentServerError);
      }
      appointments := inserted.value;
      r := Ok(appointment);
    }

    /** `upload-patient-file`: a falsy field fails before any insert; without a
        `patientFiles` collection the insert throws and the server error is returned. */
    method UploadPatientFile(req: Doc, id: string, now: int) returns (r: Reply<FileRecord>)
      requires Valid()
      modifies this`patientFiles
      ensures Valid()
      ensures !UploadFieldsPresent(req) ==> r == Fail(IncompleteUpload) && patientFiles == old(patientFiles)
      ensures UploadFieldsPresent(req) && old(patientFiles).None? ==>
                r == Fail(UploadServerError) && patientFiles == old(patientFiles)
      ensures r.Ok? <==> UploadFieldsPresent(req) && old(patientFiles).Some? &&
                         forall f :: f in old(patientFiles).value ==> f.id != id
      ensures r.Fail? ==> patientFiles == old(patientFiles) && r.message in {IncompleteUpload, UploadServerError}
      ensures r.Ok? ==> r.data == NewFile(req, id, now) &&
                        patientFiles == Some(old(patientFiles).value + [r.data])
    {
      if !UploadFieldsPresent(req) {
        return Fail(IncompleteUpload);
      }
      var fileData := NewFile(req, id, now);
      if patientFiles.None? {
        return Fail(UploadServerError);
      }
      var inserted := InsertFile(patientFiles.value, fileData);
      if inserted.None? {
        return Fail(UploadServerError);
      }
      patientFiles := Some(inserted.value);
      r := Ok(fileData);
    }

    /** `get-patient-appointments`: a falsy id fails before any query; otherwise exactly the
        appointments whose patientId the id selects, each once per stored copy, earliest first.
        No index covers `patientId`, so the candidates come from the `_id` index walk, and the
        stable sort leaves appointments with the same date in ascending `_id` order. */
    method GetPatientAppointments(patientId: Value) returns (r: Reply<seq<Appointment>>)
      ensures !Truthy(patientId) <==> r == Fail(MissingPatientId)
      ensures Truthy(patientId) ==> r.Ok?
      ensures r.Ok? ==> forall i, j :: 0 <= i < j < |r.data| ==> r.data[i].date <= r.data[j].date
      ensures r.Ok? ==> forall a :: multiset(r.data)[a] ==
                          if Matches(a.patientId, patientId) then multiset(appointments)[a] else 0
      ensures r.Ok? ==> forall i, j :: 0 <= i < j < |r.data| && r.data[i].date == r.data[j].date ==>
                          !TextLess(r.data[j].id, r.data[i].id)
    {
      if !Truthy(patientId) {
        return Fail(MissingPatientId);
      }
      var sorted := FindSorted(appointments, (a: Appointment) => Matches(a.patientId, patientId),
                               AppointmentDate, AppointmentId);
      forall i, j | 0 <= i < j < |sorted|
        ensures AppointmentDate(sorted[i]) <= AppointmentDate(sorted[j])
        ensures sorted[i].date == sorted[j].date ==> !TextLess(sorted[j].id, sorted[i].id)
      {
        assert AppointmentDate(sorted[i]) == AppointmentDate(sorted[j]) ==> !TextLess(AppointmentId(sorted[j]), AppointmentId(sorted[i]));
      }
      r := Ok(sorted);
    }

    /** `get-patient-files`: a falsy id fails before any query; without a `patientFiles`
        collection the query throws; otherwise the selected records, newest upload first, and
        records uploaded at the same instant in ascending `_id` order (the candidates come from
        the `_id` index walk and the sort is stable). */
    method GetPatientFiles(patientId: Value) returns (r: Reply<seq<FileRecord>>)
      ensures !Truthy(patientId) ==> r == Fail(MissingPatientId)
      ensures Truthy(patientId) && patientFiles.None? ==> r == Fail(FilesQueryError)
      ensures r.Ok? <==> Truthy(patientId) && patientFiles.Some?
      ensures r.Ok? ==> forall i, j :: 0 <= i < j < |r.data| ==> r.data[i].uploadDate >= r.data[j].uploadDate
      ensures r.Ok? ==> forall f :: multiset(r.data)[f] ==
                          if Matches(f.patientId, patientId) then multiset(patientFiles.value)[f] else 0
      ensures r.Ok? ==> forall i, j :: 0 <= i < j < |r.data| && r.data[i].uploadDate == r.data[j].uploadDate ==>
                          !TextLess(r.data[j].id, r.data[i].id)
    {
      if !Truthy(patientId) {
        return Fail(MissingPatientId);
      }
      if patientFiles.None? {
        return Fail(FilesQueryError);
      }
      var sorted := FindSorted(patientFiles.value, (f: FileRecord) => Matches(f.patientId, patientId),
                               NewestFirst, FileId);
      forall i, j | 0 <= i < j < |sorted|
        ensures NewestFirst(sorted[i]) <= NewestFirst(sorted[j])
        ensures sorted[i].uploadDate == sorted[j].uploadDate ==> !TextLess(sorted[j].id, sorted[i].id)
      {
        assert NewestFirst(sorted[i]) == NewestFirst(sorted[j]) ==> !TextLess(FileId(sorted[j]), FileId(sorted[i]));
      }
      r := Ok(sorted);
    }
  }
}
