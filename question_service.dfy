/** `QuestionService`: listing, reading, creating and deleting questions.
    Reads are functions of the database content; the two writes are methods
    on the session, each proved to perform the transition its `…Spec`
    function describes. */
module QuestionService {
  import opened Entities
  import opened Outcomes
  import opened Listing
  import opened EntityStore

  /** `select(Question)`: every stored question, once each, by ascending id
      (the order in which they were created). */
  function ListQuestions(db: Store): (r: seq<Question>)
    requires Consistent(db)
    ensures forall i :: 0 <= i < |r| ==> r[i].id in db.questions && db.questions[r[i].id] == r[i]
    ensures forall i, j :: 0 <= i < j < |r| ==> r[i].id < r[j].id
    ensures forall k :: k in db.questions ==> db.questions[k] in r
    ensures |r| == |db.questions|
    ensures db.questions == map[] ==> r == []
  {
    var ks := KeysFrom(db.questions, 1, db.nextQuestionId);
    var r := RowsAt(db.questions, ks);
    assert forall i :: 0 <= i < |r| ==> r[i] == db.questions[ks[i]] && r[i].id == ks[i];
    RowsFromComplete(db.questions, 1, db.nextQuestionId);
    r
  }

  /** The answers stored for the question `questionId` (the relationship
      `Question.answers`, matched on `Answer.question_id`). */
  function AnswersOf(answers: map<nat, Answer>, questionId: nat): (r: map<nat, Answer>)
    ensures forall k :: k in r <==> k in answers && answers[k].questionId == questionId
    ensures forall k :: k in r ==> r[k] == answers[k]
  {
    map k | k in answers && answers[k].questionId == questionId :: answers[k]
  }

  /** `session.get(Question, question_id)` with its answers loaded in the same read. */
  function GetQuestion(questionId: int, db: Store): (r: Outcome<QuestionDetail>)
    requires Consistent(db)
    ensures r.Ok? <==> questionId in db.questions
    ensures !r.Ok? ==> r == NotFound(QuestionNotFound(questionId))
    ensures r.Ok? ==> r.value.question == db.questions[questionId]
    ensures r.Ok? ==> forall i :: 0 <= i < |r.value.answers| ==>
              r.value.answers[i].id in db.answers && db.answers[r.value.answers[i].id] == r.value.answers[i]
              && r.value.answers[i].questionId == questionId
    ensures r.Ok? ==> forall k :: k in db.answers && db.answers[k].questionId == questionId ==>
              db.answers[k] in r.value.answers
    ensures r.Ok? ==> forall i, j :: 0 <= i < j < |r.value.answers| ==>
              r.value.answers[i].id < r.value.answers[j].id
  {
    if questionId !in db.questions then NotFound(QuestionNotFound(questionId))
    else
      var mine := AnswersOf(db.answers, questionId);
      var listed := RowsFrom(mine, 1, db.nextAnswerId);
      assert forall k :: k in mine ==> mine[k] in listed by {
        forall k | k in mine ensures mine[k] in listed {
          RowsFromHas(mine, 1, db.nextAnswerId, k);
        }
      }
      Ok(QuestionDetail(db.questions[questionId], listed))
  }

  /** `create_question`: no caller identity is involved. */
  method CreateQuestion(text: string, session: Session) returns (q: Question)
    requires session.Valid()
    modifies session
    ensures session.Valid()
    ensures (session.Contents(), q) == InsertQuestion(old(session.Contents()), text)
  {
    q := session.AddQuestion(text);
  }

  /** `delete_question`: an existence check, then the delete with its
      cascade. No authentication or ownership check is made. */
  function DeleteQuestionSpec(questionId: int, db: Store): (r: Step<()>)
    requires Consistent(db)
    ensures Consistent(r.db)
    ensures r.outcome.Ok? <==> questionId in db.questions
    ensures !r.outcome.Ok? ==> r == Step(db, NotFound(QuestionNotFound(questionId)))
    ensures r.outcome.Ok? ==> r.db == RemoveQuestion(db, questionId)
  {
    if questionId !in db.questions then Step(db, NotFound(QuestionNotFound(questionId)))
    else Step(RemoveQuestion(db, questionId), Ok(()))
  }

  method DeleteQuestion(questionId: int, session: Session) returns (r: Outcome<()>)
    requires session.Valid()
    modifies session
    ensures session.Valid()
    ensures Step(session.Contents(), r) == DeleteQuestionSpec(questionId, old(session.Contents()))
  {
    if questionId !in session.questions {
      return NotFound(QuestionNotFound(questionId));
    }
    session.DeleteQuestion(questionId);
    return Ok(());
  }

  /** A new question is listed last, after all earlier ones. */
  lemma ListQuestionsAfterCreate(db: Store, text: string)
    requires Consistent(db)
    ensures var (db', q) := InsertQuestion(db, text);
            ListQuestions(db') == ListQuestions(db) + [q]
  {
    var (db', q) := InsertQuestion(db, text);
    var n := db.nextQuestionId;
    assert db'.questions == db.questions[n := q] && db'.nextQuestionId == n + 1;
    assert ListQuestions(db') == RowsFrom(db.questions[n := q], 1, n + 1);
    assert ListQuestions(db) == RowsFrom(db.questions, 1, n);
    RowsFromExtend(db.questions, 1, n, q);
  }

  /** Deleting a question leaves every other question's detail exactly as it was. */
  lemma DeleteQuestionKeepsOthers(db: Store, questionId: int, other: int)
    requires Consistent(db)
    requires other != questionId
    ensures GetQuestion(other, DeleteQuestionSpec(questionId, db).db) == GetQuestion(other, db)
  {
    var db' := DeleteQuestionSpec(questionId, db).db;
    if other in db.questions && questionId in db.questions {
      assert AnswersOf(db'.answers, other) == AnswersOf(db.answers, other);
    }
  }
}
