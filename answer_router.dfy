/** The `/answers` router, in the same shape as the `/questions` one: a
    `From…` translation per handler and a function per request. */
module AnswerRouter {
  import opened Entities
  import opened Outcomes
  import opened EntityStore
  import opened Http
  import AnswerService

  /** The `try/except KeyError` of `get_answer`. */
  function FromGetAnswer(o: Outcome<Answer>): (r: Response<Answer>)
    ensures r.status == StatusOk <==> o.Ok?
    ensures o.Ok? ==> r.body == Payload(o.value)
    ensures o.NotFound? ==> r == NotFoundResponse(o.msg)
    ensures o.Unauthorized? || o.Forbidden? ==> r.status == StatusServerError
  {
    match o
    case Ok(answer) => Response(StatusOk, Payload(answer))
    case NotFound(msg) => NotFoundResponse(msg)
    case _ => ServerError()
  }

  /** `GET /answers/{answer_id}`: 200 with the stored answer, or 404 whose
      detail says "not found". No caller check. */
  function GetAnswer(answerId: int, db: Store): (r: Response<Answer>)
    ensures r.status == StatusOk <==> answerId in db.answers
    ensures r.status == StatusOk ==> r.body == Payload(db.answers[answerId])
    ensures r.status != StatusOk ==>
              r == NotFoundResponse(AnswerNotFound(answerId)) && Contains(r.body.message, "not found")
  {
    NotFoundMessageSaysNotFound("Answer", answerId);
    KeyErrorDetailKeeps(AnswerNotFound(answerId), "not found");
    FromGetAnswer(AnswerService.GetAnswer(answerId, db))
  }

  /** The `try/except KeyError / AssertionError` of `delete_answer`. An
      Unauthorized outcome is not caught there and would end in a 500. */
  function FromDeleteAnswer(o: Outcome<()>): (r: Response<()>)
    ensures Succeeded(r.status) <==> o.Ok?
    ensures o.Ok? ==> r == Response(StatusNoContent, NoContent)
    ensures o.NotFound? ==> r == NotFoundResponse(o.msg)
    ensures o.Forbidden? ==> r == Response(StatusForbidden, Detail(o.msg))
    ensures o.Unauthorized? ==> r.status == StatusServerError
  {
    match o
    case Ok(_) => Response(StatusNoContent, NoContent)
    case NotFound(msg) => NotFoundResponse(msg)
    case Forbidden(msg) => Response(StatusForbidden, Detail(msg))
    case Unauthorized => ServerError()
  }

  /** `DELETE /answers/{answer_id}`. The `current_user` dependency turns an
      anonymous request away with 401 and the service never runs; otherwise
      404 for a missing answer, 403 for someone else's answer, and 204 with
      an empty body once the caller's own answer is deleted. */
  function DeleteAnswer(answerId: int, db: Store, user: Option<UserId>): (r: Exchange<()>)
    requires Consistent(db)
    ensures Consistent(r.db)
    ensures user.None? ==> r == Exchange(db, NotAuthenticated())
    ensures r.response.status == StatusNoContent <==>
              user.Some? && answerId in db.answers && db.answers[answerId].userId == user.value
    ensures r.response.status == StatusNoContent ==>
              r.response.body == NoContent && r.db == RemoveAnswer(db, answerId)
    ensures r.response.status == StatusNotFound <==> user.Some? && answerId !in db.answers
    ensures r.response.status == StatusNotFound ==>
              r == Exchange(db, NotFoundResponse(AnswerNotFound(answerId)))
              && Contains(r.response.body.message, "not found")
    ensures r.response.status == StatusForbidden <==>
              user.Some? && answerId in db.answers && db.answers[answerId].userId != user.value
    ensures r.response.status == StatusForbidden ==>
              r == Exchange(db, Response(StatusForbidden, Detail(NotOwnerMessage)))
              && Contains(r.response.body.message, "own")
    ensures r.response.status in {StatusNoContent, StatusUnauthorized, StatusNotFound, StatusForbidden}
  {
    NotFoundMessageSaysNotFound("Answer", answerId);
    KeyErrorDetailKeeps(AnswerNotFound(answerId), "not found");
    NotOwnerMessageSaysOwn();
    if user.None? then Exchange(db, NotAuthenticated())
    else
      var step := AnswerService.DeleteAnswerSpec(answerId, db, user.value);
      Exchange(step.db, FromDeleteAnswer(step.outcome))
  }

  /** Distinct outcome kinds of `delete_answer` get distinct status codes,
      and only success is a 2xx: no failure is swallowed. */
  lemma DeleteAnswerStatusTellsKind(o1: Outcome<()>, o2: Outcome<()>)
    ensures FromDeleteAnswer(o1).status == FromDeleteAnswer(o2).status <==> SameKind(o1, o2)
  {
  }

  /** A refused delete changes nothing: the answer can still be fetched. */
  lemma ForbiddenDeleteStillReadable(answerId: int, db: Store, user: Option<UserId>)
    requires Consistent(db)
    requires DeleteAnswer(answerId, db, user).response.status == StatusForbidden
    ensures GetAnswer(answerId, DeleteAnswer(answerId, db, user).db).status == StatusOk
  {
  }

  /** After a successful delete, fetching the answer gives 404. */
  lemma DeletedAnswerNotFound(answerId: int, db: Store, user: Option<UserId>)
    requires Consistent(db)
    requires DeleteAnswer(answerId, db, user).response.status == StatusNoContent
    ensures GetAnswer(answerId, DeleteAnswer(answerId, db, user).db).status == StatusNotFound
  {
  }
}
