/** The read-only route under `/answers`. */
module Answers {
  import opened Wrappers
  import opened Errors
  import opened Models

  /** `GET /answers/{id}`: the stored answer with that id, or not found. */
  function GetAnswer(answers: seq<Answer>, id: int): (r: Result<Answer, Error>)
    ensures r.Failure? <==> !HasAnswer(answers, id)
    ensures r.Failure? ==> r.error == NotFound
    ensures r.Success? ==> r.value in answers && r.value.id == id
  {
    match FindAnswer(answers, id)
    case None => Failure(NotFound)
    case Some(a) => Success(a)
  }
}
