/** The `/questions` router. Each `From…` function is a handler's
    `try/except`: it turns the service's outcome into a response. Each
    request function is the whole request: FastAPI's own checks, then the
    service transition, then that translation. */
module QuestionRouter {
  import opened Entities
  import opened Outcomes
  import opened EntityStore
  import opened Http
  import QuestionService
  import AnswerService

  /** `GET /questions/`: always 200 with every stored question. */
  function ListQuestions(db: Store): (r: Response<seq<Question>>)
    requires Consistent(db)
    ensures r.status == StatusOk && r.body.Payload?
    ensures |r.body.value| == |db.questions|
    ensures forall k :: k in db.questions ==> db.questions[k] in r.body.value
    ensures forall i :: 0 <= i < |r.body.value| ==>
              r.body.value[i].id in db.questions && db.questions[r.body.value[i].id] == r.body.value[i]
    ensures forall i, j :: 0 <= i < j < |r.body.value| ==> r.body.value[i].id < r.body.value[j].id
    ensures db.questions == map[] ==> r.body.value == []
  {
    Response(StatusOk, Payload(QuestionService.ListQuestions(db)))
  }

  /** The `try/except KeyError` of `get_question`. */
  function FromGetQuestion(o: Outcome<QuestionDetail>): (r: Response<QuestionDetail>)
    ensures r.status == StatusOk <==> o.Ok?
    ensures o.Ok? ==> r.body == Payload(o.value)
    ensures o.NotFound? ==> r == NotFoundResponse(o.msg)
    ensures o.Unauthorized? || o.Forbidden? ==> r.status == StatusServerError
  {
    match o
    case Ok(detail) => Response(StatusOk, Payload(detail))
    case NotFound(msg) => NotFoundResponse(msg)
    case _ => ServerError()
  }

  /** `GET /questions/{question_id}`: 200 with the question and its answers,
      or 404 saying which question was not found. */
  function GetQuestion(questionId: int, db: Store): (r: Response<QuestionDetail>)
    requires Consistent(db)
    ensures r.status == StatusOk <==> questionId in db.questions
    ensures r.status == StatusOk ==> r.body.Payload? && r.body.value.question == db.questions[questionId]
    ensures r.status == StatusOk ==> r.body == Payload(QuestionService.GetQuestion(questionId, db).value)
    ensures r.status == StatusOk ==> forall i :: 0 <= i < |r.body.value.answers| ==>
              r.body.value.answers[i].id in db.answers && db.answers[r.body.value.answers[i].id] == r.body.value.answers[i]
              && r.body.value.answers[i].questionId == questionId
    ensures r.status == StatusOk ==> forall i, j :: 0 <= i < j < |r.body.value.answers| ==>
              r.body.value.answers[i].id < r.body.value.answers[j].id
    ensures r.status == StatusOk ==> forall k :: k in db.answers && db.answers[k].questionId == questionId ==>
              db.answers[k] in r.body.value.answers
    ensures r.status != StatusOk ==>
              r == NotFoundResponse(QuestionNotFound(questionId)) && Contains(r.body.message, "not found")
  {
    NotFoundMessageSaysNotFound("Question", questionId);
    KeyErrorDetailKeeps(QuestionNotFound(questionId), "not found");
    FromGetQuestion(QuestionService.GetQuestion(questionId, db))
  }

  /** `POST /questions/`: 422 for a missing or empty `text`, otherwise 201
      with the new question. Anyone may ask: there is no caller check. */
  function CreateQuestion(body: Option<string>, db: Store): (r: Exchange<Question>)
    requires Consistent(db)
    ensures Consistent(r.db)
    ensures !ValidText(body) ==> r == Exchange(db, TextRejected())
    ensures ValidText(body) ==>
              var (db', q) := InsertQuestion(db, body.value);
              r == Exchange(db', Response(StatusCreated, Payload(q)))
    ensures r.response.status == StatusCreated <==> ValidText(body)
    ensures r.response.status == StatusCreated ==>
              r.response.body.Payload? && r.response.body.value.text == body.value
              && r.response.body.value.id !in db.questions
              && |r.db.questions| == |db.questions| + 1 && r.db.answers == db.answers
  {
    if !ValidText(body) then Exchange(db, TextRejected())
    else
      var (db', q) := InsertQuestion(db, body.value);
      Exchange(db', Response(StatusCreated, Payload(q)))
  }

  /** The `try/except KeyError` of `delete_question`. */
  function FromDeleteQuestion(o: Outcome<()>): (r: Response<()>)
    ensures r.status == StatusNoContent <==> o.Ok?
    ensures o.Ok? ==> r.body == NoContent
    ensures o.NotFound? ==> r == NotFoundResponse(o.msg)
    ensures o.Unauthorized? || o.Forbidden? ==> r.status == StatusServerError
  {
    match o
    case Ok(_) => Response(StatusNoContent, NoContent)
    case NotFound(msg) => NotFoundResponse(msg)
    case _ => ServerError()
  }

  /** `DELETE /questions/{question_id}`: 204 with an empty body and the
      question gone together with its answers, or 404 and nothing changed.
      There is no caller check. */
  function DeleteQuestion(questionId: int, db: Store): (r: Exchange<()>)
    requires Consistent(db)
    ensures Consistent(r.db)
    ensures r.response.status == StatusNoContent <==> questionId in db.questions
    ensures r.response.status == StatusNoContent ==>
              r.response.body == NoContent && r.db == RemoveQuestion(db, questionId)
    ensures r.response.status != StatusNoContent ==>
              r == Exchange(db, NotFoundResponse(QuestionNotFound(questionId)))
              && Contains(r.response.body.message, "not found")
  {
    NotFoundMessageSaysNotFound("Question", questionId);
    KeyErrorDetailKeeps(QuestionNotFound(questionId), "not found");
    var step := QuestionService.DeleteQuestionSpec(questionId, db);
    Exchange(step.db, FromDeleteQuestion(step.outcome))
  }

  /** The `try/except ValueError / KeyError` of `create_answer`. A
      Forbidden outcome is not caught there and would end in a 500. */
  function FromCreateAnswer(o: Outcome<Answer>): (r: Response<Answer>)
    ensures r.status == StatusCreated <==> o.Ok?
    ensures o.Ok? ==> r.body == Payload(o.value)
    ensures o.Unauthorized? ==> r == Response(StatusUnauthorized, Detail(UnauthorizedMessage))
    ensures o.NotFound? ==> r == NotFoundResponse(o.msg)
    ensures o.Forbidden? ==> r.status == StatusServerError
  {
    match o
    case Ok(answer) => Response(StatusCreated, Payload(answer))
    case Unauthorized => Response(StatusUnauthorized, Detail(UnauthorizedMessage))
    case NotFound(msg) => NotFoundResponse(msg)
    case Forbidden(_) => ServerError()
  }

  /** `POST /questions/{question_id}/answers`. The `current_user` dependency
      turns an anonymous request away with 401 before anything else, even
      when the question exists; then a bad `text` gets 422; then the service
      runs. */
  function CreateAnswer(questionId: int, body: Option<string>, db: Store, user: Option<UserId>): (r: Exchange<Answer>)
    requires Consistent(db)
    ensures Consistent(r.db)
    ensures user.None? ==> r == Exchange(db, NotAuthenticated())
    ensures user.Some? && !ValidText(body) ==> r == Exchange(db, TextRejected())
    ensures r.response.status == StatusCreated <==>
              user.Some? && ValidText(body) && questionId in db.questions
    ensures r.response.status == StatusCreated ==>
              && r.response.body.Payload?
              && var a := r.response.body.value;
              && a.text == body.value && a.userId == user.value && a.questionId == questionId
              && a.id !in db.answers && r.db.answers == db.answers[a.id := a]
              && r.db.questions == db.questions
    ensures r.response.status == StatusNotFound <==>
              user.Some? && ValidText(body) && questionId !in db.questions
    ensures r.response.status == StatusNotFound ==>
              r == Exchange(db, NotFoundResponse(QuestionNotFound(questionId)))
              && Contains(r.response.body.message, "not found")
    ensures r.response.status in {StatusCreated, StatusUnauthorized, StatusNotFound, StatusUnprocessable}
  {
    NotFoundMessageSaysNotFound("Question", questionId);
    KeyErrorDetailKeeps(QuestionNotFound(questionId), "not found");
    if user.None? then Exchange(db, NotAuthenticated())
    else if !ValidText(body) then Exchange(db, TextRejected())
    else
      var step := AnswerService.CreateAnswerSpec(questionId, body.value, db, user);
      Exchange(step.db, FromCreateAnswer(step.outcome))
  }

  /** Distinct outcome kinds of `create_answer` get distinct status codes:
      the response tells which check failed. */
  lemma CreateAnswerStatusTellsKind(o1: Outcome<Answer>, o2: Outcome<Answer>)
    ensures FromCreateAnswer(o1).status == FromCreateAnswer(o2).status <==> SameKind(o1, o2)
  {
  }
}
