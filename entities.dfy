/** The two persisted record kinds of the question/answer backend and the
    caller identity they refer to. */
module Entities {

  /** The identity of an authenticated user (a UUID in the user table).
      Nothing is assumed about it except that identities can be compared. */
  type UserId(==)

  /** A stored question. The server-assigned `created_at` column is not modelled. */
  datatype Question = Question(id: nat, text: string)

  /** A stored answer: it belongs to the question `questionId` and was written by `userId`. */
  datatype Answer = Answer(id: nat, text: string, questionId: nat, userId: UserId)

  /** The question detail served by `GET /questions/{id}`: the question and its answers. */
  datatype QuestionDetail = QuestionDetail(question: Question, answers: seq<Answer>)
}
