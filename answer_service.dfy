/** `AnswerService`: reading, creating and deleting answers. The read is a
    function of the database content; the two writes are methods on the
    session with early exits on each failed check, each proved to perform
    the transition its `…Spec` function describes. */
module AnswerService {
  import opened Entities
  import opened Outcomes
  import opened EntityStore

  /** `get_answer`: the stored answer, or NotFound. */
  function GetAnswer(answerId: int, db: Store): (r: Outcome<Answer>)
    ensures r.Ok? <==> answerId in db.answers
    ensures r.Ok? ==> r.value == db.answers[answerId]
    ensures !r.Ok? ==> r == NotFound(AnswerNotFound(answerId))
  {
    if answerId in db.answers then Ok(db.answers[answerId]) else NotFound(AnswerNotFound(answerId))
  }

  /** `create_answer`: the caller check comes first, then the question
      lookup; only then is the answer inserted. */
  function CreateAnswerSpec(questionId: int, text: string, db: Store, user: Option<UserId>): (r: Step<Answer>)
    requires Consistent(db)
    ensures Consistent(r.db)
    ensures user.None? ==> r == Step(db, Unauthorized)
    ensures user.Some? && questionId !in db.questions ==> r == Step(db, NotFound(QuestionNotFound(questionId)))
    ensures r.outcome.Ok? <==> user.Some? && questionId in db.questions
    ensures r.outcome.Ok? ==>
              var a := r.outcome.value;
              && a.text == text && a.userId == user.value && a.questionId == questionId
              && a.id !in db.answers
              && r.db.answers == db.answers[a.id := a]
              && |r.db.answers| == |db.answers| + 1
              && r.db.questions == db.questions
  {
    if user.None? then Step(db, Unauthorized)
    else if questionId !in db.questions then Step(db, NotFound(QuestionNotFound(questionId)))
    else
      var (db', a) := InsertAnswer(db, text, questionId, user.value);
      Step(db', Ok(a))
  }

  method CreateAnswer(questionId: int, text: string, session: Session, user: Option<UserId>)
    returns (r: Outcome<Answer>)
    requires session.Valid()
    modifies session
    ensures session.Valid()
    ensures Step(session.Contents(), r) == CreateAnswerSpec(questionId, text, old(session.Contents()), user)
  {
    if user.None? {
      return Unauthorized;
    }
    if questionId !in session.questions {
      return NotFound(QuestionNotFound(questionId));
    }
    var answer := session.AddAnswer(text, questionId, user.value);
    return Ok(answer);
  }

  /** `delete_answer`: the existence check comes first, then the ownership
      check (strict equality of identities), then the delete. The caller is
      always present here, as the router has already authenticated them. */
  function DeleteAnswerSpec(answerId: int, db: Store, user: UserId): (r: Step<()>)
    requires Consistent(db)
    ensures Consistent(r.db)
    ensures answerId !in db.answers ==> r == Step(db, NotFound(AnswerNotFound(answerId)))
    ensures answerId in db.answers && db.answers[answerId].userId != user ==>
              r == Step(db, Forbidden(NotOwnerMessage))
    ensures r.outcome.Ok? <==> answerId in db.answers && db.answers[answerId].userId == user
    ensures r.outcome.Ok? ==> r.db == RemoveAnswer(db, answerId)
  {
    if answerId !in db.answers then Step(db, NotFound(AnswerNotFound(answerId)))
    else if db.answers[answerId].userId != user then Step(db, Forbidden(NotOwnerMessage))
    else Step(RemoveAnswer(db, answerId), Ok(()))
  }

  method DeleteAnswer(answerId: int, session: Session, user: UserId) returns (r: Outcome<()>)
    requires session.Valid()
    modifies session
    ensures session.Valid()
    ensures Step(session.Contents(), r) == DeleteAnswerSpec(answerId, old(session.Contents()), user)
  {
    if answerId !in session.answers {
      return NotFound(AnswerNotFound(answerId));
    }
    var answer := session.answers[answerId];
    if answer.userId != user {
      return Forbidden(NotOwnerMessage);
    }
    session.DeleteAnswer(answerId);
    return Ok(());
  }

  /** Two answers posted one after the other to the same question, by the
      same caller or by two different ones: both are stored, under distinct
      ids, and each carries the identity of the caller who posted it. */
  lemma SuccessiveAnswers(db: Store, questionId: int, text1: string, text2: string, u1: UserId, u2: UserId)
    requires Consistent(db)
    requires questionId in db.questions
    ensures var s1 := CreateAnswerSpec(questionId, text1, db, Some(u1));
            var s2 := CreateAnswerSpec(questionId, text2, s1.db, Some(u2));
            && s1.outcome.Ok? && s2.outcome.Ok?
            && s1.outcome.value.userId == u1 && s2.outcome.value.userId == u2
            && s1.outcome.value.questionId == questionId == s2.outcome.value.questionId
            && s1.outcome.value.id != s2.outcome.value.id
            && s2.db.answers[s1.outcome.value.id] == s1.outcome.value
            && s2.db.answers[s2.outcome.value.id] == s2.outcome.value
  {
  }

  /** After the owner deletes an answer it can no longer be read; every other
      answer reads as before. */
  lemma DeletedAnswerIsGone(db: Store, answerId: int, user: UserId, other: int)
    requires Consistent(db)
    requires DeleteAnswerSpec(answerId, db, user).outcome.Ok?
    requires other != answerId
    ensures GetAnswer(answerId, DeleteAnswerSpec(answerId, db, user).db).NotFound?
    ensures GetAnswer(other, DeleteAnswerSpec(answerId, db, user).db) == GetAnswer(other, db)
  {
  }

  /** A refused delete leaves the answer readable. */
  lemma ForbiddenDeleteKeepsAnswer(db: Store, answerId: int, user: UserId)
    requires Consistent(db)
    requires DeleteAnswerSpec(answerId, db, user).outcome.Forbidden?
    ensures GetAnswer(answerId, DeleteAnswerSpec(answerId, db, user).db) == GetAnswer(answerId, db)
    ensures GetAnswer(answerId, db).Ok?
  {
  }
}
