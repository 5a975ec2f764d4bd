# Questions and answers: a verified model of the CRUD core

This project models the core of a small question-and-answer web API written
with FastAPI and SQLAlchemy. Anyone may list, read, post and delete
questions. Only a logged-in user may answer a question, and a user may
delete only their own answers. Deleting a question deletes its answers
with it, through the `ON DELETE CASCADE` on `answers.question_id`.

The model has three layers.

- **The database** (`EntityStore`). `Store` holds the content of the two
  tables as values:
  - maps from id to row;
  - one id sequence per table. As in a PostgreSQL serial column, ids start
    at 1 and are never reused.

  `Consistent` is the invariant the database keeps: every row is filed under
  its own id, and every answer's question exists. The pure transitions
  `InsertQuestion`, `InsertAnswer`, `RemoveAnswer` and `RemoveQuestion` each
  preserve it. The class `Session` is the mutable database the services
  work on. Each of its methods performs one committed transaction and is
  proved equal to the matching transition. `Session.DeleteQuestion` carries
  out the cascade with a loop over the answers table.
- **The services** (`QuestionService`, `AnswerService`). Reads are
  functions of the database content. Each write is a method on the
  session. It makes the source's checks in the source's order, with an
  early exit on each failure, and its `ensures` ties it to a `…Spec`
  transition function that the lemmas reason about. Python's exceptions
  become `Outcome` constructors:
  - `KeyError` becomes `NotFound(msg)`;
  - `ValueError` becomes `Unauthorized`;
  - `AssertionError` becomes `Forbidden(msg)`.

  The messages are the source's exact f-strings. Ids are rendered in
  decimal, and that rendering is proved to round-trip.
- **The routers** (`Http`, `QuestionRouter`, `AnswerRouter`).
  - Each handler's `try/except` is a pure `From…` function from outcome to
    response.
  - Each endpoint is a function of the request. It applies FastAPI's two
    checks before the handler runs: the `current_user` dependency (401) and
    the body's `text` validation (422). Then it runs the service transition
    and the translation.
  - `str(e)` of a `KeyError` is the message in single quotes, so a 404
    detail reads `'Answer with id: 7 not found'`. The model keeps those
    quotes, and proves that the detail still contains "not found".

The caller's identity is an abstract type `UserId` that supports equality
only. In the source it is the user table's UUID.

## Model

| member | source | states |
|---|---|---|
| Outcomes.NatToString | src/app/services/answer_service.py:16 | the decimal rendering of an id is digits only, with no leading zero |
| Outcomes.NatToStringRoundTrip | src/app/services/answer_service.py:16 | reading the rendered digits back gives the same number |
| Outcomes.IntToString | src/app/services/question_service.py:25 | renders any int the way Python's f-string does: a leading '-' exactly for a negative number, then decimal digits only, with no leading zero |
| Outcomes.IntToStringRoundTrip | src/app/services/question_service.py:25 | rendering an int and reading it back gives the same int, so the message determines the id |
| Outcomes.NotFoundMessageSaysNotFound | src/app/services/answer_service.py:16 | each "{entity} with id: {id} not found" message contains "not found" |
| Outcomes.NotFoundMessageNamesId | src/app/services/answer_service.py:51 | two not-found messages for the same entity are equal only when their ids are equal |
| Outcomes.NotOwnerMessageSaysOwn | src/app/services/answer_service.py:53 | the ownership failure message contains "own" |
| Listing.KeysFrom | src/app/services/question_service.py:15 | lists each table key in range exactly once, in strictly ascending order, and lists every such key |
| Listing.KeysFromCount | src/app/services/question_service.py:16 | when all keys are in range, the listing is as long as the table |
| Listing.RowsFromComplete | src/app/services/question_service.py:15-16 | when every key lies in range, every row is listed and the listing is as long as the table |
| Listing.RowsFromExtend | src/app/services/question_service.py:34-36 | a row inserted under the next id is listed last, after the old listing |
| Listing.RowsFromSkip | src/app/services/answer_service.py:34-37 | widening the range by a key the listed map does not hold leaves the listing unchanged |
| EntityStore.Empty | tests/test_questions.py:10-15 | a fresh database is consistent and has no questions and no answers |
| EntityStore.InsertQuestion | src/app/services/question_service.py:33-36 | a new question keeps its text and gets a fresh id above every existing id; one row is added, nothing else changes, and the invariant holds |
| EntityStore.InsertAnswer | src/app/services/answer_service.py:34-37 | a new answer keeps its text, question and author and gets a fresh id; one row is added, nothing else changes, and the invariant holds |
| EntityStore.RemoveAnswer | src/app/services/answer_service.py:55-56 | exactly the given answer is removed; every other row is unchanged and the invariant holds |
| EntityStore.RemoveQuestion | src/core/models/answer.py:11-13 | the question and every answer referring to it are removed; every other row is unchanged and the foreign-key invariant still holds |
| EntityStore.Session.constructor | tests/test_questions.py:10-15 | a new session starts on the empty database |
| EntityStore.Session.AddQuestion | src/app/services/question_service.py:34-36 | the add-commit-refresh of a question performs InsertQuestion and returns the refreshed row |
| EntityStore.Session.AddAnswer | src/app/services/answer_service.py:35-37 | the add-commit-refresh of an answer performs InsertAnswer and returns the refreshed row |
| EntityStore.Session.DeleteAnswer | src/app/services/answer_service.py:55-56 | the delete-commit of an answer performs RemoveAnswer |
| EntityStore.Session.DeleteQuestion | src/core/models/answer.py:11-13 | the delete-commit of a question, with its cascade loop over the answers table, performs RemoveQuestion |
| QuestionService.ListQuestions | src/app/services/question_service.py:12-16 | lists every stored question once and no others, by ascending id; an empty database gives [] |
| QuestionService.GetQuestion | src/app/services/question_service.py:19-27 | Ok exactly when the id is stored, with that question and exactly its answers by ascending id; otherwise NotFound("Question with id: {id} not found") |
| QuestionService.CreateQuestion | src/app/services/question_service.py:30-37 | performs InsertQuestion on the session, with no caller identity involved |
| QuestionService.DeleteQuestionSpec | src/app/services/question_service.py:40-50 | Ok exactly when the question exists, and then it is removed with its cascade; otherwise NotFound with the database unchanged; no caller check |
| QuestionService.DeleteQuestion | src/app/services/question_service.py:40-50 | the existence check, then the delete with its cascade, as DeleteQuestionSpec says |
| QuestionService.ListQuestionsAfterCreate | src/app/services/question_service.py:30-37 | after a question is created, the listing is the old listing followed by the new question |
| QuestionService.DeleteQuestionKeepsOthers | src/app/services/question_service.py:48-50 | deleting one question leaves every other question's detail, and its answers, exactly as before |
| AnswerService.GetAnswer | src/app/services/answer_service.py:10-18 | the stored answer when the id is present, otherwise NotFound("Answer with id: {id} not found") |
| AnswerService.CreateAnswerSpec | src/app/services/answer_service.py:21-38 | no caller: Unauthorized, whether or not the question exists; an unknown question: NotFound; both failures leave the database unchanged. Ok exactly when there is a caller and the question exists; the answer then keeps text, caller and question, gets a fresh id, and is the only row added |
| AnswerService.CreateAnswer | src/app/services/answer_service.py:21-38 | the caller check, then the question lookup, then the insert, as CreateAnswerSpec says |
| AnswerService.DeleteAnswerSpec | src/app/services/answer_service.py:41-57 | an absent answer: NotFound, checked before ownership; another user's answer: Forbidden("You can delete only your own answers"), unchanged; Ok exactly for the owner, removing just that answer |
| AnswerService.DeleteAnswer | src/app/services/answer_service.py:41-57 | the existence check, then the ownership check, then the delete, as DeleteAnswerSpec says |
| AnswerService.SuccessiveAnswers | tests/test_answers.py:136-200 | two answers in a row to one question, by the same user or two users, both succeed under distinct ids, each with its own author and the question's id, and both are stored |
| AnswerService.DeletedAnswerIsGone | src/app/services/answer_service.py:55-57 | after the owner deletes an answer, reading it gives NotFound and every other answer reads as before |
| AnswerService.ForbiddenDeleteKeepsAnswer | src/app/services/answer_service.py:52-53 | after a refused delete, the answer is still there and reads as before |
| ServiceProperties.NewQuestionHasNoAnswers | src/app/services/question_service.py:30-37 | a newly created question reads back with itself and an empty answer list |
| ServiceProperties.CreateAnswerExtendsDetail | src/app/services/answer_service.py:34-38 | a new answer appears last in its question's detail, after the earlier answers |
| ServiceProperties.CreateAnswerKeepsOtherDetails | src/app/services/answer_service.py:34-38 | answering one question leaves every other question's detail unchanged |
| ServiceProperties.DeleteAnswerLeavesDetail | src/app/services/answer_service.py:55-57 | a deleted answer no longer appears in its question's detail |
| ServiceProperties.DeleteQuestionCascades | tests/test_questions.py:100-124 | after a question is deleted, neither it nor any of its former answers can be read; every other answer reads as before |
| ServiceProperties.DeleteQuestionUnlists | src/app/services/question_service.py:48-50 | after a question is deleted, it is no longer listed, every other question still is, and the list is one shorter |
| ServiceProperties.AnswersSplitByQuestion | src/core/models/answer.py:11-13 | the answers of a question and the answers the cascade keeps have disjoint ids, and together they are the whole answers table |
| ServiceProperties.DeleteQuestionRemovesItsDetail | src/app/services/question_service.py:48-50 | deleting a question removes an answer if and only if that answer was listed in the question's detail |
| Http.KeyErrorDetailKeeps | src/app/routers/api/question.py:29-30 | quoting a KeyError's message for the detail keeps every piece of that message |
| QuestionRouter.ListQuestions | src/app/routers/api/question.py:18-20 | always 200, with every stored question exactly once and only those, by ascending id; [] for an empty database |
| QuestionRouter.FromGetQuestion | src/app/routers/api/question.py:27-32 | 200 exactly for Ok, with the detail; NotFound becomes 404 with the quoted message; an uncaught kind becomes 500 |
| QuestionRouter.GetQuestion | src/app/routers/api/question.py:23-32 | 200 exactly when the question exists, with the service's detail: the question and exactly its stored answers, each once, by ascending id; otherwise 404, whose detail names the id and says "not found" |
| QuestionRouter.CreateQuestion | src/app/routers/api/question.py:35-40 | missing or empty text: 422 with nothing changed; otherwise 201 with the inserted question; no caller check |
| QuestionRouter.FromDeleteQuestion | src/app/routers/api/question.py:48-53 | 204 with an empty body exactly for Ok; NotFound becomes 404 with the quoted message; an uncaught kind becomes 500 |
| QuestionRouter.DeleteQuestion | src/app/routers/api/question.py:43-53 | 204 exactly when the question exists, and then it is removed with its answers; otherwise 404 saying "not found" with nothing changed; no caller check |
| QuestionRouter.FromCreateAnswer | src/app/routers/api/question.py:67-74 | Ok becomes 201 with the answer, Unauthorized 401, NotFound 404 with the quoted message; Forbidden is not caught and becomes 500 |
| QuestionRouter.CreateAnswer | src/app/routers/api/question.py:56-74 | anonymous: 401, even when the question exists; bad text: 422; unknown question: 404 saying "not found"; else 201 with an answer carrying the text, the caller and the question. Only 201 changes the database, and no other status can occur |
| QuestionRouter.CreateAnswerStatusTellsKind | src/app/routers/api/question.py:67-72 | two outcomes of create_answer get the same status exactly when they are of the same kind |
| AnswerRouter.FromGetAnswer | src/app/routers/api/answer.py:16-21 | 200 exactly for Ok, with the answer; NotFound becomes 404 with the quoted message; an uncaught kind becomes 500 |
| AnswerRouter.GetAnswer | src/app/routers/api/answer.py:12-21 | 200 with the stored answer exactly when it exists; otherwise 404 whose detail says "not found"; no caller check |
| AnswerRouter.FromDeleteAnswer | src/app/routers/api/answer.py:30-37 | a 2xx status exactly for Ok: 204 with no body; NotFound becomes 404 and Forbidden 403 with the service's message; Unauthorized is not caught and becomes 500 |
| AnswerRouter.DeleteAnswer | src/app/routers/api/answer.py:24-37 | anonymous: 401 with the service never reached; absent answer: 404 saying "not found"; another user's answer: 403 saying "own"; the owner: 204 with just that answer removed; no other status can occur, and only 204 changes the database |
| AnswerRouter.DeleteAnswerStatusTellsKind | src/app/routers/api/answer.py:30-37 | each outcome kind of delete_answer has its own status code: two outcomes share a status exactly when they share a kind |
| AnswerRouter.ForbiddenDeleteStillReadable | src/app/routers/api/answer.py:34-35 | after a 403 on delete, the answer still reads with 200 |
| AnswerRouter.DeletedAnswerNotFound | src/app/routers/api/answer.py:37 | after a 204 on delete, reading the answer gives 404 |

## Left out

- I/O, asynchronous execution and the SQLAlchemy session machinery are not modelled: commit, refresh, lazy `selectin` loading, and the database server itself. Each service call is one atomic transition of the database content.
- Concurrent requests are not modelled: requests are serialised.
- Authentication is reduced to its result, an optional caller identity. Left out are the JWT strategy, bearer transport, `fastapi_users`, the user manager, and password hashing and registration.
- FastAPI's dependency injection, router registration and CORS are not modelled.
- The model assumes that FastAPI resolves the `current_user` dependency before it validates the request body. So an anonymous request with a bad `text` gets 401, not 422.
- The request and response schemas are not modelled. src/app/schemas/answer.py and src/app/schemas/question.py do not define `QuestionCreate` or `AnswerResponse`, which the routers import through src/app/schemas/__init__.py:9-10. Validation appears only as the effect the repository's tests expect: a missing or empty `text` gets 422.
- The exact pydantic rule behind that 422 is not part of this model. Whitespace, Unicode length and the shape of pydantic's error body are therefore not modelled.
- `created_at` is not modelled. It is set by the database clock (`now()`, src/core/mixins.py:11).
- Response serialisation is not modelled either, such as rendering the UUID `user_id` as a string.
- Pagination is not modelled: the list endpoint returns every question.
- QuestionService.ListQuestions: `select(Question)` has no `ORDER BY`, so the database may return the rows in any order. The model fixes one order, ascending id. That order is the order of creation, since ids are never reused.
- QuestionService.GetQuestion: the relationship that loads a question's answers (src/core/models/question.py:10-16) has no `order_by`, so the source promises no order for them. The model lists them by ascending id, as it does for the questions.
- Ids are unbounded integers in the model. The database's integer columns are bounded, and a path id beyond that bound makes `session.get` fail in the database driver. The handlers catch only the service's own exceptions, so the source then answers 500. Where the model promises a 404 for every absent id, that holds only for ids the database can represent. The endpoints concerned follow.
- QuestionRouter.GetQuestion: promises 404 for any absent id; the source answers 500 for an id beyond the database's integer range.
- QuestionRouter.DeleteQuestion: promises 404 for any absent id; the source answers 500 for an id beyond the database's integer range.
- QuestionRouter.CreateAnswer: promises 404 for any absent question id; the source answers 500 for an id beyond the database's integer range.
- AnswerRouter.GetAnswer: promises 404 for any absent id; the source answers 500 for an id beyond the database's integer range.
- AnswerRouter.DeleteAnswer: promises 404 for any absent id; the source answers 500 for an id beyond the database's integer range.
- The relationship `Question.answer` is declared against a class named "Reservation" (src/core/models/question.py:11), which does not exist. The model uses the intended relationship: the answers whose question id matches. A question's answers are read from the answers table.
- `Answer.user_id` is not declared in the answer model file, and the `Base` class it extends is not part of this model. The model gives every answer an author, as the services and tests assume.
- Id sequences are modelled as PostgreSQL serial columns, in line with the database URL in src/core/config.py: they start at 1 and never reuse an id. The test database, SQLite, may reuse the largest id after a delete; that is not modelled.
- An outcome that a handler does not catch becomes a 500 in the model. Examples are a Forbidden reaching `create_answer` and an Unauthorized reaching `delete_answer`. The request-level functions prove that this never happens.
- The service's own `if not user` check in `create_answer` is reachable only when the service is called directly. Through the router, the `current_user` dependency has already refused the request.
- AnswerService.DeleteAnswerSpec takes a caller that is always present, since the source reads `user.id` without checking for a missing user. The router supplies the present-or-absent case.
