/** The database behind the services: a `questions` table and an `answers`
    table keyed by integer id, each with its own id sequence. `Store` is the
    content of the database as a value; `Session` is the mutable database
    that the services act on, one committed operation at a time. */
module EntityStore {
  import opened Entities
  import opened Outcomes

  datatype Store = Store(
    questions: map<nat, Question>,
    answers: map<nat, Answer>,
    nextQuestionId: nat,
    nextAnswerId: nat)

  /** What one committed service operation leaves behind: the new database
      content and how the operation ended. */
  datatype Step<+T> = Step(db: Store, outcome: Outcome<T>)

  /** Every row is filed under its own id, and each id sequence is past every
      id it has handed out (ids start at 1). */
  ghost predicate KeysAreIds(db: Store) {
    && 1 <= db.nextQuestionId
    && 1 <= db.nextAnswerId
    && (forall k :: k in db.questions ==> 1 <= k < db.nextQuestionId && db.questions[k].id == k)
    && (forall k :: k in db.answers ==> 1 <= k < db.nextAnswerId && db.answers[k].id == k)
  }

  /** The foreign key `answers.question_id -> questions.id`: every stored
      answer belongs to a stored question. */
  ghost predicate AnswersHaveQuestions(db: Store) {
    forall k :: k in db.answers ==> db.answers[k].questionId in db.questions
  }

  ghost predicate Consistent(db: Store) {
    KeysAreIds(db) && AnswersHaveQuestions(db)
  }

  /** A freshly created database. */
  function Empty(): (db: Store)
    ensures Consistent(db)
    ensures db.questions == map[] && db.answers == map[]
  {
    Store(map[], map[], 1, 1)
  }

  /** The answers that remain once the question `questionId` is gone: the
      `ON DELETE CASCADE` of the foreign key removes the others. */
  function AnswersNotOf(answers: map<nat, Answer>, questionId: nat): (r: map<nat, Answer>)
    ensures forall k :: k in r <==> k in answers && answers[k].questionId != questionId
    ensures forall k :: k in r ==> r[k] == answers[k]
  {
    map k | k in answers && answers[k].questionId != questionId :: answers[k]
  }

  /** `INSERT INTO questions`: the row gets the next id of the sequence. */
  function InsertQuestion(db: Store, text: string): (r: (Store, Question))
    requires Consistent(db)
    ensures Consistent(r.0)
    ensures r.1.text == text
    ensures r.1.id !in db.questions
    ensures forall k :: k in db.questions ==> k < r.1.id
    ensures r.0.questions == db.questions[r.1.id := r.1]
    ensures |r.0.questions| == |db.questions| + 1
    ensures r.0.answers == db.answers && r.0.nextAnswerId == db.nextAnswerId
  {
    var q := Question(db.nextQuestionId, text);
    (db.(questions := db.questions[q.id := q], nextQuestionId := q.id + 1), q)
  }

  /** `INSERT INTO answers`: the foreign key demands that the question exists. */
  function InsertAnswer(db: Store, text: string, questionId: nat, userId: UserId): (r: (Store, Answer))
    requires Consistent(db)
    requires questionId in db.questions
    ensures Consistent(r.0)
    ensures r.1.text == text && r.1.questionId == questionId && r.1.userId == userId
    ensures r.1.id !in db.answers
    ensures forall k :: k in db.answers ==> k < r.1.id
    ensures r.0.answers == db.answers[r.1.id := r.1]
    ensures |r.0.answers| == |db.answers| + 1
    ensures r.0.questions == db.questions && r.0.nextQuestionId == db.nextQuestionId
  {
    var a := Answer(db.nextAnswerId, text, questionId, userId);
    (db.(answers := db.answers[a.id := a], nextAnswerId := a.id + 1), a)
  }

  /** `DELETE FROM answers WHERE id = answerId`. */
  function RemoveAnswer(db: Store, answerId: nat): (r: Store)
    requires Consistent(db)
    ensures Consistent(r)
    ensures answerId !in r.answers
    ensures forall k :: k in db.answers && k != answerId ==> k in r.answers && r.answers[k] == db.answers[k]
    ensures forall k :: k in r.answers ==> k in db.answers
    ensures answerId in db.answers ==> |r.answers| == |db.answers| - 1
    ensures r.questions == db.questions
    ensures r.nextQuestionId == db.nextQuestionId && r.nextAnswerId == db.nextAnswerId
  {
    db.(answers := db.answers - {answerId})
  }

  /** `DELETE FROM questions WHERE id = questionId`, with the cascade on the
      answers that reference it. */
  function RemoveQuestion(db: Store, questionId: nat): (r: Store)
    requires Consistent(db)
    ensures Consistent(r)
    ensures r.questions == db.questions - {questionId}
    ensures forall k :: k in r.answers ==> r.answers[k].questionId != questionId
    ensures forall k :: k in db.answers && db.answers[k].questionId != questionId ==>
              k in r.answers && r.answers[k] == db.answers[k]
    ensures forall k :: k in r.answers ==> k in db.answers
    ensures r.nextQuestionId == db.nextQuestionId && r.nextAnswerId == db.nextAnswerId
  {
    db.(questions := db.questions - {questionId}, answers := AnswersNotOf(db.answers, questionId))
  }

  /** The database as the services see it through their session: each
      method is one committed transaction. */
  class Session {
    var questions: map<nat, Question>
    var answers: map<nat, Answer>
    var nextQuestionId: nat
    var nextAnswerId: nat

    function Contents(): Store
      reads this
    {
      Store(questions, answers, nextQuestionId, nextAnswerId)
    }

    ghost predicate Valid()
      reads this
    {
      Consistent(Contents())
    }

    constructor ()
      ensures Valid()
      ensures Contents() == Empty()
    {
      questions, answers := map[], map[];
      nextQuestionId, nextAnswerId := 1, 1;
    }

    /** `session.add(question); commit(); refresh(question)`. */
    method AddQuestion(text: string) returns (q: Question)
      requires Valid()
      modifies this
      ensures Valid()
      ensures (Contents(), q) == InsertQuestion(old(Contents()), text)
    {
      q := Question(nextQuestionId, text);
      questions := questions[q.id := q];
      nextQuestionId := nextQuestionId + 1;
    }

    /** `session.add(answer); commit(); refresh(answer)`. */
    method AddAnswer(text: string, questionId: nat, userId: UserId) returns (a: Answer)
      requires Valid()
      requires questionId in questions
      modifies this
      ensures Valid()
      ensures (Contents(), a) == InsertAnswer(old(Contents()), text, questionId, userId)
    {
      a := Answer(nextAnswerId, text, questionId, userId);
      answers := answers[a.id := a];
      nextAnswerId := nextAnswerId + 1;
    }

    /** `session.delete(answer); commit()`. */
    method DeleteAnswer(answerId: nat)
      requires Valid()
      modifies this
      ensures Valid()
      ensures Contents() == RemoveAnswer(old(Contents()), answerId)
    {
      answers := answers - {answerId};
    }

    /** `session.delete(question); commit()`: the database drops the question
        and then, following the foreign key, each answer that referenced it. */
    method DeleteQuestion(questionId: nat)
      requires Valid()
      modifies this
      ensures Valid()
      ensures Contents() == RemoveQuestion(old(Contents()), questionId)
    {
      var pending := answers.Keys;
      var kept: map<nat, Answer> := map[];
      while pending != {}
        invariant pending <= answers.Keys
        invariant forall k :: k in kept <==> k in answers && k !in pending && answers[k].questionId != questionId
        invariant forall k :: k in kept ==> kept[k] == answers[k]
        decreases pending
      {
        var k :| k in pending;
        if answers[k].questionId != questionId {
          kept := kept[k := answers[k]];
        }
        pending := pending - {k};
      }
      assert kept == AnswersNotOf(answers, questionId);
      questions := questions - {questionId};
      answers := kept;
    }
  }
}
