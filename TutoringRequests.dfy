/**
 * service/tutoring_service.py, the request side of `TutoringService`:
 * resolving the two languages of a question (`askForTextResponse`), the
 * ladder of lookups behind a dual-language lesson (`askForAudioResponse`),
 * each rung failing with its own `ValueError`, and the mapping of failures
 * to HTTP errors. The agent, the database session and the synthesizer are
 * parameters or tables given as values.
 */
module TutoringRequests {
  import opened Wrappers
  import opened Seqs
  import opened Strings
  import opened TagScan
  import opened Tutoring

  /** A `Subject` row: a language offered for study, identified by its code. */
  datatype Subject = Subject(id: int, name: string, code: string)

  /** Failures raised inside the service: a `ValueError` with its message, or anything else. */
  datatype Failure = ValueError(msg: string) | OtherError

  /** The `HTTPException` the service raises. */
  datatype HttpError = HttpError(status: int, detail: string)

  /** The two `except` clauses of `askForAudioResponse`. */
  function ToHttp(f: Failure): (e: HttpError)
    ensures e.status == 400 <==> f.ValueError?
    ensures f.ValueError? ==> e.detail == f.msg
    ensures !f.ValueError? ==> e == HttpError(500, "Internal Server Error")
  {
    match f
    case ValueError(msg) => HttpError(400, msg)
    case OtherError => HttpError(500, "Internal Server Error")
  }

  /** `code.split("-")[0]`: a language code without its region. */
  function BaseLanguage(code: string): string
  {
    Split(code, "-")[0]
  }

  /**
   * The base language holds no `-`, and it is either the whole code or the
   * part of the code before its first `-`.
   */
  lemma BaseLanguageSpec(code: string)
    ensures !Contains(BaseLanguage(code), "-")
    ensures BaseLanguage(code) == code
            || (|BaseLanguage(code)| < |code| && code[..|BaseLanguage(code)| + 1] == BaseLanguage(code) + "-")
  {
    var parts := Split(code, "-");
    SplitJoin(code, "-");
    SplitParts(code, "-");
    assert parts[0] in parts;
    if |parts| > 1 {
      assert code == parts[0] + "-" + Join(parts[1..], "-");
      assert code[..|parts[0]| + 1] == parts[0] + "-";
    }
  }

  /** Stripping the region twice is stripping it once. */
  lemma BaseLanguageIdempotent(code: string)
    ensures BaseLanguage(BaseLanguage(code)) == BaseLanguage(code)
  {
    BaseLanguageSpec(code);
    SplitWithout(BaseLanguage(code), "-");
  }

  // ---------------------------------------------------------------------------
  // askForTextResponse
  // ---------------------------------------------------------------------------

  function HasCode(code: string): Subject -> bool
  {
    (s: Subject) => s.code == code
  }

  /** `next((item for item in rows if item.code == code), None)`. */
  function FirstWithCode(rows: seq<Subject>, code: string): (r: Option<Subject>)
    ensures r.None? <==> forall i :: 0 <= i < |rows| ==> rows[i].code != code
    ensures r.Some? ==> r.value in rows && r.value.code == code
  {
    var i := FirstWhere(rows, HasCode(code));
    if i.None? then None else Some(rows[i.value])
  }

  /** `select(Subject).where(Subject.code.in_([a, b]))`, rows in table order. */
  function CodeIn(subjects: seq<Subject>, a: string, b: string): (r: seq<Subject>)
    ensures forall s :: s in r <==> s in subjects && (s.code == a || s.code == b)
  {
    if subjects == [] then []
    else
      (if subjects[0].code == a || subjects[0].code == b then [subjects[0]] else [])
      + CodeIn(subjects[1..], a, b)
  }

  /**
   * Looking a code up among the rows the query returned finds the same row
   * as looking it up in the whole table: the query keeps every row with
   * either code, in order.
   */
  lemma {:induction false} FirstWithCodeInQuery(subjects: seq<Subject>, a: string, b: string, code: string)
    requires code == a || code == b
    ensures FirstWithCode(CodeIn(subjects, a, b), code) == FirstWithCode(subjects, code)
  {
    if subjects != [] {
      var s0 := subjects[0];
      var q := CodeIn(subjects, a, b);
      var tail := CodeIn(subjects[1..], a, b);
      FirstWithCodeInQuery(subjects[1..], a, b, code);
      if s0.code == code {
        assert q == [s0] + tail;
        FirstWithCodeHead(q, code);
        FirstWithCodeHead(subjects, code);
      } else {
        FirstWithCodeSkip(subjects, code);
        if s0.code == a || s0.code == b {
          assert q == [s0] + tail;
          assert q[1..] == tail;
          FirstWithCodeSkip(q, code);
        } else {
          assert q == tail;
        }
      }
    }
  }

  /** A first row with the code is the one found. */
  lemma FirstWithCodeHead(rows: seq<Subject>, code: string)
    requires |rows| > 0 && rows[0].code == code
    ensures FirstWithCode(rows, code) == Some(rows[0])
  {
  }

  /** A first row without the code is passed over. */
  lemma FirstWithCodeSkip(rows: seq<Subject>, code: string)
    requires |rows| > 0 && rows[0].code != code
    ensures FirstWithCode(rows, code) == FirstWithCode(rows[1..], code)
  {
    var i := FirstWhere(rows, HasCode(code));
    var j := FirstWhere(rows[1..], HasCode(code));
    assert i.Some? ==> j == Some(i.value - 1);
  }

  /**
   * `askForTextResponse`: the agent's chunks, streamed once both the
   * instruction language and the studied language are found; otherwise the
   * generator raises before its first chunk. `stream` is the agent's
   * `ask_ai_stream` for the two languages.
   */
  function AskForTextResponse(subjects: seq<Subject>, instCode: string, langCode: string, question: string,
                              stream: (Subject, Subject, string) -> seq<string>): (r: Result<seq<string>, Failure>)
    ensures r.Err? ==> r.error == ValueError("Either " + instCode + " or " + langCode + " is invalid")
    ensures r.Ok? ==> exists inst, lang :: r.value == stream(inst, lang, question)
                                           && inst in subjects && inst.code == instCode
                                           && lang in subjects && lang.code == langCode
  {
    var results := CodeIn(subjects, instCode, langCode);
    var instLang := FirstWithCode(results, instCode);
    var lang := FirstWithCode(results, langCode);
    if instLang.None? || lang.None? then
      Err(ValueError("Either " + instCode + " or " + langCode + " is invalid"))
    else
      Ok(stream(instLang.value, lang.value, question))
  }

  /**
   * The text response fails exactly when one of the two codes names no
   * subject in the table, with the message naming both codes; otherwise it
   * streams the agent's answer for the first subjects with those codes.
   */
  lemma AskForTextResponseSpec(subjects: seq<Subject>, instCode: string, langCode: string, question: string,
                               stream: (Subject, Subject, string) -> seq<string>)
    ensures var r := AskForTextResponse(subjects, instCode, langCode, question, stream);
            && (r.Err? <==> (forall i :: 0 <= i < |subjects| ==> subjects[i].code != instCode)
                            || (forall i :: 0 <= i < |subjects| ==> subjects[i].code != langCode))
            && (r.Err? ==> r.error == ValueError("Either " + instCode + " or " + langCode + " is invalid"))
            && (r.Ok? ==> r.value == stream(FirstWithCode(subjects, instCode).value,
                                            FirstWithCode(subjects, langCode).value, question))
  {
    FirstWithCodeInQuery(subjects, instCode, langCode, instCode);
    FirstWithCodeInQuery(subjects, instCode, langCode, langCode);
  }

  // ---------------------------------------------------------------------------
  // askForAudioResponse
  // ---------------------------------------------------------------------------

  datatype Course = Course(subjectId: int, subjectLevelId: int)
  /** A user's enrolment, with the instruction language and tutor chosen for it. */
  datatype UserCourse = UserCourse(courseId: int, course: Course, instructionLanguageId: int, tutorId: int)
  /** The fields of a `User` the lesson reads. */
  datatype Learner = Learner(uuid: string, courses: seq<UserCourse>)
  datatype SubjectLevel = SubjectLevel(id: int, name: string)
  datatype InstructionLanguage = InstructionLanguage(id: int, name: string, code: string)
  datatype Tutor = Tutor(id: int, name: string, gender: string)

  /** The tables the session reads: users in table order, the others by primary key. */
  datatype Tables = Tables(learners: seq<Learner>, subjects: map<int, Subject>, levels: map<int, SubjectLevel>,
                           instructionLanguages: map<int, InstructionLanguage>, tutors: map<int, Tutor>)

  /** Everything the ladder of lookups resolves. */
  datatype Lesson = Lesson(subject: Subject, level: SubjectLevel, instLang: InstructionLanguage, tutor: Tutor)

  function HasUuid(uuid: string): Learner -> bool
  {
    (l: Learner) => l.uuid == uuid
  }

  function HasCourseId(courseId: int): UserCourse -> bool
  {
    (c: UserCourse) => c.courseId == courseId
  }

  /** Learner `i` is the first one with the uuid, the row `.first()` returns. */
  predicate IsFirstLearner(db: Tables, userUuid: string, i: int)
  {
    0 <= i < |db.learners| && db.learners[i].uuid == userUuid
    && forall j :: 0 <= j < i ==> db.learners[j].uuid != userUuid
  }

  /** Enrolment `k` is the first one in the course, the one `next(...)` returns. */
  predicate IsFirstCourse(courses: seq<UserCourse>, courseId: int, k: int)
  {
    0 <= k < |courses| && courses[k].courseId == courseId
    && forall m :: 0 <= m < k ==> courses[m].courseId != courseId
  }

  /**
   * The first two rungs: the user with the uuid (`.first()`), then that
   * user's enrolment in the course (`next(...)`).
   */
  function FindEnrollment(db: Tables, userUuid: string, courseId: int): (r: Result<UserCourse, Failure>)
    ensures r == Err(ValueError(userUuid + " user not found."))
            <==> forall i :: 0 <= i < |db.learners| ==> db.learners[i].uuid != userUuid
    ensures forall i :: IsFirstLearner(db, userUuid, i)
                        && (forall k :: 0 <= k < |db.learners[i].courses| ==> db.learners[i].courses[k].courseId != courseId)
                        ==> r == Err(ValueError("Course id " + IntToString(courseId) + " not found for user " + userUuid + "."))
    ensures forall i, k :: IsFirstLearner(db, userUuid, i) && IsFirstCourse(db.learners[i].courses, courseId, k)
                           ==> r == Ok(db.learners[i].courses[k])
    ensures r.Ok? ==> exists i, k :: IsFirstLearner(db, userUuid, i) && IsFirstCourse(db.learners[i].courses, courseId, k)
  {
    var u := FirstWhere(db.learners, HasUuid(userUuid));
    if u.None? then Err(ValueError(userUuid + " user not found."))
    else
      assert IsFirstLearner(db, userUuid, u.value);
      assert forall i :: IsFirstLearner(db, userUuid, i) ==> i == u.value;
      var user := db.learners[u.value];
      var c := FirstWhere(user.courses, HasCourseId(courseId));
      if c.None? then
        var msg := "Course id " + IntToString(courseId) + " not found for user " + userUuid + ".";
        assert |msg| > |userUuid + " user not found."|;
        Err(ValueError(msg))
      else
        assert IsFirstCourse(user.courses, courseId, c.value);
        assert forall k :: IsFirstCourse(user.courses, courseId, k) ==> k == c.value;
        Ok(user.courses[c.value])
  }

  /** Only the first user with the uuid is consulted: a later one enrolled in the course does not help. */
  lemma FirstUserDecides(db: Tables, userUuid: string, courseId: int, i: nat)
    requires i < |db.learners| && db.learners[i].uuid == userUuid
    requires forall j :: 0 <= j < i ==> db.learners[j].uuid != userUuid
    requires forall k :: 0 <= k < |db.learners[i].courses| ==> db.learners[i].courses[k].courseId != courseId
    ensures FindEnrollment(db, userUuid, courseId)
            == Err(ValueError("Course id " + IntToString(courseId) + " not found for user " + userUuid + "."))
  {
    assert FirstWhere(db.learners, HasUuid(userUuid)) == Some(i);
  }

  /** The remaining rungs: subject, subject level, instruction language, tutor, by primary key. */
  function LessonFor(db: Tables, c: UserCourse): (r: Result<Lesson, Failure>)
    ensures r.Ok? <==> c.course.subjectId in db.subjects && c.course.subjectLevelId in db.levels
                       && c.instructionLanguageId in db.instructionLanguages && c.tutorId in db.tutors
    ensures r.Ok? ==> r.value == Lesson(db.subjects[c.course.subjectId], db.levels[c.course.subjectLevelId],
                                        db.instructionLanguages[c.instructionLanguageId], db.tutors[c.tutorId])
    ensures r.Err? ==> r.error.ValueError?
  {
    if c.course.subjectId !in db.subjects then
      Err(ValueError("Subject id " + IntToString(c.course.subjectId) + " not found."))
    else if c.course.subjectLevelId !in db.levels then
      Err(ValueError("Subject level id " + IntToString(c.course.subjectLevelId) + " not found."))
    else if c.instructionLanguageId !in db.instructionLanguages then
      Err(ValueError("Instruction language id " + IntToString(c.instructionLanguageId) + " not found."))
    else if c.tutorId !in db.tutors then
      Err(ValueError("Tutor id " + IntToString(c.tutorId) + " not found."))
    else
      Ok(Lesson(db.subjects[c.course.subjectId], db.levels[c.course.subjectLevelId],
                db.instructionLanguages[c.instructionLanguageId], db.tutors[c.tutorId]))
  }

  /** The rungs are tried in order: a missing subject is reported whatever else is missing. */
  lemma MissingSubjectReportedFirst(db: Tables, c: UserCourse)
    requires c.course.subjectId !in db.subjects
    ensures LessonFor(db, c) == Err(ValueError("Subject id " + IntToString(c.course.subjectId) + " not found."))
  {
  }

  /** A missing tutor is reported only once everything before it was found. */
  lemma MissingTutorReportedLast(db: Tables, c: UserCourse)
    requires c.tutorId !in db.tutors
    ensures LessonFor(db, c) == Err(ValueError("Tutor id " + IntToString(c.tutorId) + " not found."))
            <==> c.course.subjectId in db.subjects && c.course.subjectLevelId in db.levels
                 && c.instructionLanguageId in db.instructionLanguages
  {
    var tutorMissing := "Tutor id " + IntToString(c.tutorId) + " not found.";
    assert tutorMissing[0] == 'T';
    if c.course.subjectId !in db.subjects {
      assert LessonFor(db, c).error.msg[0] == 'S';
    } else if c.course.subjectLevelId !in db.levels {
      assert LessonFor(db, c).error.msg[0] == 'S';
    } else if c.instructionLanguageId !in db.instructionLanguages {
      assert LessonFor(db, c).error.msg[0] == 'I';
    }
  }

  /** The ladder of lookups from a request to a lesson. */
  function ResolveLesson(db: Tables, userUuid: string, courseId: int): (r: Result<Lesson, Failure>)
    ensures r.Err? ==> r.error.ValueError?
    ensures forall i, k :: IsFirstLearner(db, userUuid, i) && IsFirstCourse(db.learners[i].courses, courseId, k)
                           ==> r == LessonFor(db, db.learners[i].courses[k])
    ensures r.Ok? ==> exists i, k :: IsFirstLearner(db, userUuid, i) && IsFirstCourse(db.learners[i].courses, courseId, k)
  {
    var e := FindEnrollment(db, userUuid, courseId);
    if e.Err? then Err(e.error) else LessonFor(db, e.value)
  }

  /** The agent's JSON answer, `AiResponse`. */
  datatype AiResponse = AiResponse(question: seq<Fragment>, answer: seq<Fragment>)

  datatype Voice = Female | Male

  /** What is handed to speech synthesis and to the multipart response. */
  datatype AudioPlan = AudioPlan(question: string, answer: string, lang1: string, lang2: string, voice: Voice)

  /** The request text sent to the agent: both texts, each with its base language. */
  function AiRequest(instCode: string, subjectCode: string, text1: string, text2: string): string
  {
    "{\"tts1:{\"lang\":\"" + instCode + "\",\"text\":\"" + text1 + "\"},\""
    + "{tts2:{\"lang\":\"" + subjectCode + "\",\"text\":\"" + text2 + "\"}}"
  }

  /**
   * `askForAudioResponse` up to synthesis: resolve the lesson, ask the agent
   * (`ask` returns the reply already validated as an `AiResponse`, or the
   * validation message, a `ValueError` in pydantic), convert both fragment
   * lists with the instruction language's base code, and pick the voice from
   * the tutor.
   */
  function AudioRequest(db: Tables, userUuid: string, courseId: int, text1: string, text2: string,
                        ask: string -> Result<AiResponse, string>): (r: Result<AudioPlan, HttpError>)
    ensures r.Err? ==> r.error.status == 400
    ensures r.Ok? ==> exists l :: ResolveLesson(db, userUuid, courseId) == Ok(l)
                                  && (r.value.voice == Female <==> l.tutor.gender == "F")
  {
    var lesson := ResolveLesson(db, userUuid, courseId);
    if lesson.Err? then Err(ToHttp(lesson.error))
    else
      var l := lesson.value;
      var reply := ask(AiRequest(BaseLanguage(l.instLang.code), BaseLanguage(l.subject.code), text1, text2));
      if reply.Err? then Err(ToHttp(ValueError(reply.error)))
      else
        var lang1 := BaseLanguage(l.instLang.code);
        var lang2 := BaseLanguage(l.subject.code);
        Ok(AudioPlan(Converted(lang1, reply.value.question), Converted(lang1, reply.value.answer),
                     lang1, lang2, if l.tutor.gender == "F" then Female else Male))
  }

  /**
   * Every failure of the lesson is a client error (400) carrying its
   * message; a successful plan speaks the answer in the two base languages,
   * neither of which holds a region, with a female voice exactly when the
   * tutor's gender is `F`.
   */
  lemma AudioRequestSpec(db: Tables, userUuid: string, courseId: int, text1: string, text2: string,
                         ask: string -> Result<AiResponse, string>)
    ensures var r := AudioRequest(db, userUuid, courseId, text1, text2, ask);
            && (r.Err? ==> r.error.status == 400)
            && (ResolveLesson(db, userUuid, courseId).Err? ==> r == Err(HttpError(400, ResolveLesson(db, userUuid, courseId).error.msg)))
            && (r.Ok? ==> ResolveLesson(db, userUuid, courseId).Ok?
                          && var l := ResolveLesson(db, userUuid, courseId).value;
                          && r.value.lang1 == BaseLanguage(l.instLang.code)
                          && r.value.lang2 == BaseLanguage(l.subject.code)
                          && !Contains(r.value.lang1, "-") && !Contains(r.value.lang2, "-")
                          && (r.value.voice == Female <==> l.tutor.gender == "F"))
  {
    var lesson := ResolveLesson(db, userUuid, courseId);
    if lesson.Ok? {
      BaseLanguageSpec(lesson.value.instLang.code);
      BaseLanguageSpec(lesson.value.subject.code);
    }
  }

  /**
   * The converted answer carries its foreign fragments in the markup the
   * synthesizer scans: when every fragment is in one of the two lesson
   * languages and free of `<`, scanning the answer for the subject's tags
   * gives back exactly the texts of the subject-language fragments.
   */
  lemma AudioAnswerScans(db: Tables, userUuid: string, courseId: int, text1: string, text2: string,
                         ask: string -> Result<AiResponse, string>)
    requires AudioRequest(db, userUuid, courseId, text1, text2, ask).Ok?
    requires var p := AudioRequest(db, userUuid, courseId, text1, text2, ask).value;
             var reply := ask(AiRequest(p.lang1, p.lang2, text1, text2));
             reply.Ok? && Scannable(p.lang1, p.lang2, reply.value.answer)
    ensures var p := AudioRequest(db, userUuid, courseId, text1, text2, ask).value;
            var reply := ask(AiRequest(p.lang1, p.lang2, text1, text2));
            TaggedTexts(Scan(p.answer, p.lang2, 0)) == ForeignTexts(p.lang1, reply.value.answer)
  {
    var p := AudioRequest(db, userUuid, courseId, text1, text2, ask).value;
    var reply := ask(AiRequest(p.lang1, p.lang2, text1, text2));
    ScanConverted(p.lang1, p.lang2, reply.value.answer);
  }
}
