/** The records of the five NeDB collections and the unique indexes the database module
    declares on them. Every collection also has NeDB's own unique index on `_id`. */
module Records {
  import opened JsValues

  /** A document of `users`: email, bcrypt hash, role and creation instant. */
  datatype Account = Account(id: string, email: Value, password: Value, userType: Value, createdAt: int)

  /** A document of `patients` or of `doctors`, linked to its account by `userId`. */
  datatype Profile =
    | PatientProfile(id: string, userId: string, name: Value, email: Value, birthDate: Value, healthPlan: Value)
    | DoctorProfile(id: string, userId: string, name: Value, email: Value, crm: Value, specialty: Value)

  /** A document of `appointments`; `date` is the instant `new Date(appointmentDate)` denotes. */
  datatype Appointment = Appointment(
    id: string, patientId: Value, doctorId: Value, doctorName: Value, patientName: Value,
    date: int, reason: Value, status: string, createdAt: int)

  /** A document of the file-metadata collection. */
  datatype FileRecord = FileRecord(
    id: string, patientId: Value, doctorId: Value, doctorName: Value, patientName: Value,
    originalPath: Value, fileName: Value, description: Value, uploadDate: int)

  /** The account as the object `findOne` hands back. */
  function AccountDoc(a: Account): Doc
  {
    map["_id" := Str(a.id), "email" := a.email, "password" := a.password,
        "userType" := a.userType, "createdAt" := Time(a.createdAt)]
  }

  /** The profile as the object `findOne` hands back; role fields that were `undefined` at
      registration are present and hold `undefined`. */
  function ProfileDoc(p: Profile): Doc
  {
    match p
    case PatientProfile(id, userId, name, email, birthDate, healthPlan) =>
      map["_id" := Str(id), "userId" := Str(userId), "name" := name, "email" := email,
          "birthDate" := birthDate, "healthPlan" := healthPlan]
    case DoctorProfile(id, userId, name, email, crm, specialty) =>
      map["_id" := Str(id), "userId" := Str(userId), "name" := name, "email" := email,
          "crm" := crm, "specialty" := specialty]
  }

  /** The unique indexes on `users`: `_id` and `email`. Index keys compare as NeDB's
      `compareThings` does, so two accounts without an email collide too. */
  ghost predicate UniqueAccounts(users: seq<Account>)
  {
    forall i, j :: 0 <= i < j < |users| ==> users[i].id != users[j].id && users[i].email != users[j].email
  }

  /** The unique indexes on `patients` and on `doctors`: `_id` and `userId`. */
  ghost predicate UniqueProfiles(profiles: seq<Profile>)
  {
    forall i, j :: 0 <= i < j < |profiles| ==>
      profiles[i].id != profiles[j].id && profiles[i].userId != profiles[j].userId
  }

  ghost predicate UniqueAppointments(appointments: seq<Appointment>)
  {
    forall i, j :: 0 <= i < j < |appointments| ==> appointments[i].id != appointments[j].id
  }

  ghost predicate UniqueFiles(files: seq<FileRecord>)
  {
    forall i, j :: 0 <= i < j < |files| ==> files[i].id != files[j].id
  }

  /** `db.users.insert`: refused, with the collection left as it was, when the new
      document's `_id` or `email` is already indexed; otherwise appended. Keeps the index. */
  function InsertAccount(users: seq<Account>, a: Account): (r: Option<seq<Account>>)
    ensures r.Some? <==> forall u :: u in users ==> u.id != a.id && u.email != a.email
    ensures r.Some? ==> r.value == users + [a]
    ensures r.Some? && UniqueAccounts(users) ==> UniqueAccounts(r.value)
  {
    if exists u :: u in users && (u.id == a.id || u.email == a.email) then None
    else
      assert forall k :: 0 <= k < |users| ==> (users + [a])[k] == users[k];
      Some(users + [a])
  }

  /** `insert` into `patients` or `doctors`: refused when the `_id` or `userId` is already
      indexed; otherwise appended. Keeps the index. */
  function InsertProfile(profiles: seq<Profile>, p: Profile): (r: Option<seq<Profile>>)
    ensures r.Some? <==> forall q :: q in profiles ==> q.id != p.id && q.userId != p.userId
    ensures r.Some? ==> r.value == profiles + [p]
    ensures r.Some? && UniqueProfiles(profiles) ==> UniqueProfiles(r.value)
  {
    if exists q :: q in profiles && (q.id == p.id || q.userId == p.userId) then None
    else
      assert forall k :: 0 <= k < |profiles| ==> (profiles + [p])[k] == profiles[k];
      Some(profiles + [p])
  }

  /** `db.appointments.insert`: refused on a duplicate `_id`; otherwise appended. */
  function InsertAppointment(appointments: seq<Appointment>, a: Appointment): (r: Option<seq<Appointment>>)
    ensures r.Some? <==> forall b :: b in appointments ==> b.id != a.id
    ensures r.Some? ==> r.value == appointments + [a]
    ensures r.Some? && UniqueAppointments(appointments) ==> UniqueAppointments(r.value)
  {
    if exists b :: b in appointments && b.id == a.id then None
    else
      assert forall k :: 0 <= k < |appointments| ==> (appointments + [a])[k] == appointments[k];
      Some(appointments + [a])
  }

  /** `insert` into the file-metadata collection: refused on a duplicate `_id`. */
  function InsertFile(files: seq<FileRecord>, f: FileRecord): (r: Option<seq<FileRecord>>)
    ensures r.Some? <==> forall g :: g in files ==> g.id != f.id
    ensures r.Some? ==> r.value == files + [f]
    ensures r.Some? && UniqueFiles(files) ==> UniqueFiles(r.value)
  {
    if exists g :: g in files && g.id == f.id then None
    else
      assert forall k :: 0 <= k < |files| ==> (files + [f])[k] == files[k];
      Some(files + [f])
  }
}
