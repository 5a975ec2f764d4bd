/** Properties that relate the two services through the shared database:
    how creating an answer shows in its question's detail, and what deleting
    a question does to its answers. */
module ServiceProperties {
  import opened Entities
  import opened Outcomes
  import opened Listing
  import opened EntityStore
  import opened QuestionService
  import opened AnswerService

  /** A new question starts with no answers. */
  lemma NewQuestionHasNoAnswers(db: Store, text: string)
    requires Consistent(db)
    ensures var (db', q) := InsertQuestion(db, text);
            GetQuestion(q.id, db') == Ok(QuestionDetail(q, []))
  {
    var (db', q) := InsertQuestion(db, text);
    var mine := AnswersOf(db'.answers, q.id);
    assert mine == map[];
    KeysFromCount(mine, 1, db'.nextAnswerId);
  }

  /** A new answer is shown last in its question's detail, after the
      earlier ones. */
  lemma CreateAnswerExtendsDetail(db: Store, questionId: int, text: string, user: UserId)
    requires Consistent(db)
    requires questionId in db.questions
    ensures var s := CreateAnswerSpec(questionId, text, db, Some(user));
            GetQuestion(questionId, s.db).Ok? && GetQuestion(questionId, db).Ok?
            && GetQuestion(questionId, s.db).value.answers
               == GetQuestion(questionId, db).value.answers + [s.outcome.value]
  {
    var s := CreateAnswerSpec(questionId, text, db, Some(user));
    var a := s.outcome.value;
    var n := db.nextAnswerId;
    assert a.id == n && s.db.answers == db.answers[n := a] && s.db.nextAnswerId == n + 1;
    var before := AnswersOf(db.answers, questionId);
    assert AnswersOf(s.db.answers, questionId) == before[n := a];
    assert GetQuestion(questionId, s.db).value.answers == RowsFrom(before[n := a], 1, n + 1);
    assert GetQuestion(questionId, db).value.answers == RowsFrom(before, 1, n);
    RowsFromExtend(before, 1, n, a);
  }

  /** An answer to one question leaves every other question's detail as it was. */
  lemma CreateAnswerKeepsOtherDetails(db: Store, questionId: int, text: string, user: UserId, other: int)
    requires Consistent(db)
    requires other != questionId
    ensures GetQuestion(other, CreateAnswerSpec(questionId, text, db, Some(user)).db) == GetQuestion(other, db)
  {
    var s := CreateAnswerSpec(questionId, text, db, Some(user));
    if questionId in db.questions && other in db.questions {
      var n := db.nextAnswerId;
      var before := AnswersOf(db.answers, other);
      assert AnswersOf(s.db.answers, other) == before;
      assert n !in before;
      assert GetQuestion(other, s.db).value.answers == RowsFrom(before, 1, n + 1);
      assert GetQuestion(other, db).value.answers == RowsFrom(before, 1, n);
      RowsFromSkip(before, 1, n);
    }
  }

  /** Deleting an answer drops it from its question's detail. */
  lemma DeleteAnswerLeavesDetail(db: Store, answerId: int, user: UserId)
    requires Consistent(db)
    requires DeleteAnswerSpec(answerId, db, user).outcome.Ok?
    ensures var q := db.answers[answerId].questionId;
            var t := GetQuestion(q, DeleteAnswerSpec(answerId, db, user).db);
            t.Ok? && db.answers[answerId] !in t.value.answers
  {
  }

  /** Deleting a question deletes its answers with it: neither the question
      nor any of its former answers can be read afterwards, and each other
      answer reads as before. */
  lemma DeleteQuestionCascades(db: Store, questionId: int, answerId: int)
    requires Consistent(db)
    requires DeleteQuestionSpec(questionId, db).outcome.Ok?
    ensures GetQuestion(questionId, DeleteQuestionSpec(questionId, db).db).NotFound?
    ensures answerId in db.answers && db.answers[answerId].questionId == questionId ==>
              GetAnswer(answerId, DeleteQuestionSpec(questionId, db).db).NotFound?
    ensures answerId in db.answers && db.answers[answerId].questionId != questionId ==>
              GetAnswer(answerId, DeleteQuestionSpec(questionId, db).db) == GetAnswer(answerId, db)
  {
  }

  /** A deleted question is no longer listed; every other question still is. */
  lemma DeleteQuestionUnlists(db: Store, questionId: int)
    requires Consistent(db)
    requires DeleteQuestionSpec(questionId, db).outcome.Ok?
    ensures var r := ListQuestions(DeleteQuestionSpec(questionId, db).db);
            && (forall i :: 0 <= i < |r| ==> r[i].id != questionId)
            && (forall k :: k in db.questions && k != questionId ==> db.questions[k] in r)
            && |r| == |db.questions| - 1
  {
    var db' := DeleteQuestionSpec(questionId, db).db;
    forall k | k in db.questions && k != questionId
      ensures db.questions[k] in ListQuestions(db')
    {
      assert k in db'.questions;
    }
  }

  /** The question's answers and the answers the cascade keeps split the
      answers table: no answer is in both, and every answer is in one. */
  lemma AnswersSplitByQuestion(answers: map<nat, Answer>, questionId: nat)
    ensures AnswersOf(answers, questionId).Keys !! AnswersNotOf(answers, questionId).Keys
    ensures AnswersOf(answers, questionId).Keys + AnswersNotOf(answers, questionId).Keys == answers.Keys
  {
    var mine, kept := AnswersOf(answers, questionId), AnswersNotOf(answers, questionId);
    assert forall k :: k in answers ==> k in mine.Keys + kept.Keys;
  }

  /** Deleting a question removes exactly the answers its detail showed:
      an answer disappears if and only if it was listed under the question. */
  lemma DeleteQuestionRemovesItsDetail(db: Store, questionId: int, answerId: nat)
    requires Consistent(db)
    requires questionId in db.questions
    requires answerId in db.answers
    ensures var db' := DeleteQuestionSpec(questionId, db).db;
            answerId !in db'.answers <==> db.answers[answerId] in GetQuestion(questionId, db).value.answers
  {
    var detail := GetQuestion(questionId, db).value.answers;
    var a := db.answers[answerId];
    if a in detail {
      var i :| 0 <= i < |detail| && detail[i] == a;
      assert detail[i].questionId == questionId;
    }
  }
}
