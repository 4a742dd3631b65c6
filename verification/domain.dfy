/** The stored entities of the exam catalogue and of the result store.
    Identifiers are the database's surrogate keys; timestamps are opaque
    naturals; percentages are exact rationals, and a stored row holds its
    percentage in whole hundredths. */
module Domain {
  import opened Wrappers

  /** A multiple-choice option of a question. */
  datatype Answer = Answer(id: nat, text: string, isCorrect: bool, sortOrder: int)

  /** A question with its options, in stored (`sort_order`) order. */
  datatype Question = Question(id: nat, text: string, sortOrder: int, answers: seq<Answer>)

  datatype Subject = Subject(id: nat, name: string)

  datatype Section = Section(id: nat, name: string)

  /** An exam template (`ExamModel`). */
  datatype Exam = Exam(
    id: nat,
    name: string,
    durationMinutes: int,
    allowReattempt: bool,
    isActive: bool,
    subject: Subject,
    questions: seq<Question>)

  /** One submitted `{question_id, answer_id}` pair; the client controls both
      numbers, so nothing ties them to the template. */
  datatype Entry = Entry(questionId: int, answerId: int)

  /** A student profile, optionally linked to a login identity and a section. */
  datatype StudentProfile = StudentProfile(
    id: nat,
    userId: Option<nat>,
    fullName: string,
    studentNumber: Option<string>,
    section: Option<Section>)

  /** A stored `Result` row: one completed attempt. `student` is `None` for a
      guest attempt. */
  datatype Attempt = Attempt(
    examId: nat,
    student: Option<nat>,
    isGuest: bool,
    guestName: Option<string>,
    score: nat,
    totalQuestions: nat,
    percentage: real,
    startedAt: nat,
    completedAt: nat)

  /** A password hash. bcrypt is abstracted as an injective encoding of the
      plain text (the salt plays no part in what the model observes). */
  datatype Secret = Hashed(plain: string)

  datatype Role = Role(name: string)

  /** A login identity (`User`). */
  datatype User = User(
    id: nat,
    username: Option<string>,
    email: Option<string>,
    nationalId: Option<string>,
    passwordHash: Option<Secret>,
    role: Option<Role>)

  /** A `User` as the API returns it: every field except the password hash. */
  datatype UserView = UserView(
    id: nat,
    username: Option<string>,
    email: Option<string>,
    nationalId: Option<string>,
    role: Option<Role>)

  /** The `{ password_hash: _, ...rest }` destructuring. */
  function WithoutPassword(u: User): (v: UserView)
    ensures v.id == u.id && v.username == u.username && v.email == u.email
    ensures v.nationalId == u.nationalId && v.role == u.role
  {
    UserView(u.id, u.username, u.email, u.nationalId, u.role)
  }

  /** JavaScript truthiness of an optional string: present and non-empty. */
  predicate Truthy(s: Option<string>) {
    s.Some? && s.value != []
  }

  /** `a || b` on optional strings. */
  function OrElse(a: Option<string>, b: Option<string>): (r: Option<string>)
    ensures Truthy(a) ==> r == a
    ensures !Truthy(a) ==> r == b
  {
    if Truthy(a) then a else b
  }

  /** JavaScript truthiness of an optional number: present and non-zero. */
  predicate TruthyNat(n: Option<nat>) {
    n.Some? && n.value != 0
  }
}
