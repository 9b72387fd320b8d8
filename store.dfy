/**
 * The database behind the routes: the two tables, the id sequences that number their rows
 * and the clock that stamps `created_at`, with the four writes the routes make to them.
 * Each route is one atomic change of the tables; the reads are the functions of the
 * `Questions` and `Answers` modules applied to the current tables.
 */
module Store {
  import opened Wrappers
  import opened Errors
  import opened Models
  import Seqs
  import Schemas
  import Questions
  import Answers

  // ---------------------------------------------------------------- table invariants

  /** The question table: ids are unique keys below the next id of the sequence, held in
      increasing order; every text is normalised; creation times never lie in the future
      and never decrease with the id. */
  predicate QuestionTable(qs: seq<Question>, nextId: int, clock: Timestamp)
  {
    && Seqs.StrictlyIncreasing(qs, QuestionKey)
    && QuestionsStampedInIdOrder(qs)
    && (forall q | q in qs :: 1 <= q.id < nextId && Schemas.IsNormalText(q.text) && q.createdAt <= clock)
  }

  /** The answer table, with the same conditions, and a stored user id that reads back as a UUID. */
  predicate AnswerTable(answers: seq<Answer>, nextId: int, clock: Timestamp)
  {
    && Seqs.StrictlyIncreasing(answers, AnswerKey)
    && AnswersStampedInIdOrder(answers)
    && (forall a | a in answers ::
          && 1 <= a.id < nextId && Schemas.IsNormalText(a.text) && a.createdAt <= clock
          && Schemas.IsUuidText(a.userId))
  }

  /** Both tables, and the foreign key from answers to questions. */
  predicate Tables(qs: seq<Question>, answers: seq<Answer>, nextQuestionId: int, nextAnswerId: int,
                   clock: Timestamp)
  {
    && 1 <= nextQuestionId && 1 <= nextAnswerId
    && QuestionTable(qs, nextQuestionId, clock)
    && AnswerTable(answers, nextAnswerId, clock)
    && NoOrphans(qs, answers)
  }

  /** `id` is the primary key of either table: no two rows share one. */
  lemma IdsAreKeys(qs: seq<Question>, answers: seq<Answer>, nextQuestionId: int, nextAnswerId: int,
                   clock: Timestamp)
    requires Tables(qs, answers, nextQuestionId, nextAnswerId, clock)
    ensures forall x, y | x in qs && y in qs && x.id == y.id :: x == y
    ensures forall x, y | x in answers && y in answers && x.id == y.id :: x == y
  {
    forall x, y | x in qs && y in qs && x.id == y.id ensures x == y {
      Seqs.IncreasingKeysAreUnique(qs, QuestionKey, x, y);
    }
    forall x, y | x in answers && y in answers && x.id == y.id ensures x == y {
      Seqs.IncreasingKeysAreUnique(answers, AnswerKey, x, y);
    }
  }

  // ---------------------------------------------------------------- the writes, on the tables

  /** One more question, with the next id and the current time, keeps the question table. */
  lemma AppendQuestion(qs: seq<Question>, nextId: int, clock: Timestamp, q: Question)
    requires QuestionTable(qs, nextId, clock) && 1 <= nextId
    requires q.id == nextId && Schemas.IsNormalText(q.text) && clock <= q.createdAt
    ensures QuestionTable(qs + [q], nextId + 1, q.createdAt)
  {
    var qs' := qs + [q];
    forall i, j | 0 <= i < j < |qs'| ensures QuestionKey(qs'[i]) < QuestionKey(qs'[j]) {
      if j < |qs| {
        assert qs'[i] == qs[i] && qs'[j] == qs[j];
      } else {
        assert qs'[i] == qs[i] && qs[i] in qs;
      }
    }
  }

  /** Likewise for one more answer. */
  lemma AppendAnswer(answers: seq<Answer>, nextId: int, clock: Timestamp, a: Answer)
    requires AnswerTable(answers, nextId, clock) && 1 <= nextId
    requires a.id == nextId && Schemas.IsNormalText(a.text) && clock <= a.createdAt
    requires Schemas.IsUuidText(a.userId)
    ensures AnswerTable(answers + [a], nextId + 1, a.createdAt)
  {
    var answers' := answers + [a];
    forall i, j | 0 <= i < j < |answers'| ensures AnswerKey(answers'[i]) < AnswerKey(answers'[j]) {
      if j < |answers| {
        assert answers'[i] == answers[i] && answers'[j] == answers[j];
      } else {
        assert answers'[i] == answers[i] && answers[i] in answers;
      }
    }
  }

  /** `create_question`: the new row goes to the end of the table with the next id and the
      current time, and the tables stay valid. */
  lemma CreateQuestionStep(qs: seq<Question>, answers: seq<Answer>, nextQuestionId: int, nextAnswerId: int,
                           clock: Timestamp, q: Question)
    requires Tables(qs, answers, nextQuestionId, nextAnswerId, clock)
    requires q.id == nextQuestionId && Schemas.IsNormalText(q.text) && clock <= q.createdAt
    ensures Tables(qs + [q], answers, nextQuestionId + 1, nextAnswerId, q.createdAt)
  {
    AppendQuestion(qs, nextQuestionId, clock, q);
    forall a | a in answers ensures HasQuestion(qs + [q], a.questionId) {
      var x :| x in qs && x.id == a.questionId;
      assert x in qs + [q];
    }
  }

  /** The question just created is found by its id, with no answers yet. */
  lemma CreatedQuestionIsFound(qs: seq<Question>, answers: seq<Answer>, nextQuestionId: int, nextAnswerId: int,
                               clock: Timestamp, q: Question)
    requires Tables(qs, answers, nextQuestionId, nextAnswerId, clock)
    requires q.id == nextQuestionId
    ensures Questions.GetQuestion(qs + [q], answers, q.id) == Success(QuestionWithAnswers(q, []))
  {
    var qs' := qs + [q];
    assert q in qs';
    forall a | a in answers ensures a.questionId != q.id {
      var x :| x in qs && x.id == a.questionId;
    }
    NoAnswersOfUnreferenced(answers, q.id);
    var r := Questions.GetQuestion(qs', answers, q.id);
    assert r.value.question == q by {
      var x := r.value.question;
      assert x in qs && x.id == q.id ==> false;
    }
  }

  /** `delete_question` with the cascade: the question and exactly its answers go, the
      tables stay valid, the question is no longer found and neither is any of its answers,
      and every other row is still there. */
  lemma DeleteQuestionStep(qs: seq<Question>, answers: seq<Answer>, nextQuestionId: int, nextAnswerId: int,
                           clock: Timestamp, id: int)
    requires Tables(qs, answers, nextQuestionId, nextAnswerId, clock)
    ensures var qs', answers' := WithoutQuestion(qs, id), WithoutAnswersOf(answers, id);
      && Tables(qs', answers', nextQuestionId, nextAnswerId, clock)
      && Questions.GetQuestion(qs', answers', id).Failure?
      && (forall a | a in answers && a.questionId == id :: Answers.GetAnswer(answers', a.id).Failure?)
      && (forall q | q in qs && q.id != id :: q in qs')
      && (forall a | a in answers && a.questionId != id :: a in answers')
  {
    var qs', answers' := WithoutQuestion(qs, id), WithoutAnswersOf(answers, id);
    Seqs.FilterKeepsIncreasing(qs, (q: Question) => q.id != id, QuestionKey);
    Seqs.FilterKeepsIncreasing(answers, (a: Answer) => a.questionId != id, AnswerKey);
    CascadeKeepsNoOrphans(qs, answers, id);
    IdsAreKeys(qs, answers, nextQuestionId, nextAnswerId, clock);
  }

  /** `add_answer_to_question` on an existing question: the new row goes to the end of the
      answer table with the next id and the current time, and the tables stay valid. */
  lemma AddAnswerStep(qs: seq<Question>, answers: seq<Answer>, nextQuestionId: int, nextAnswerId: int,
                      clock: Timestamp, a: Answer)
    requires Tables(qs, answers, nextQuestionId, nextAnswerId, clock)
    requires HasQuestion(qs, a.questionId)
    requires a.id == nextAnswerId && clock <= a.createdAt
    requires Schemas.IsNormalText(a.text) && Schemas.IsUuidText(a.userId)
    ensures Tables(qs, answers + [a], nextQuestionId, nextAnswerId + 1, a.createdAt)
  {
    AppendAnswer(answers, nextAnswerId, clock, a);
  }

  /** The answer just added is found by its id. */
  lemma AddedAnswerIsFound(qs: seq<Question>, answers: seq<Answer>, nextQuestionId: int, nextAnswerId: int,
                           clock: Timestamp, a: Answer)
    requires Tables(qs, answers, nextQuestionId, nextAnswerId, clock)
    requires a.id == nextAnswerId
    ensures Answers.GetAnswer(answers + [a], a.id) == Success(a)
  {
    var answers' := answers + [a];
    assert a in answers';
    var r := Answers.GetAnswer(answers', a.id);
    assert r.value == a by {
      var x := r.value;
      assert x in answers && x.id == a.id ==> false;
    }
  }

  /** The answer just added is among the answers of its question. */
  lemma AddedAnswerIsListed(qs: seq<Question>, answers: seq<Answer>, a: Answer)
    requires HasQuestion(qs, a.questionId)
    ensures Questions.GetQuestion(qs, answers + [a], a.questionId).Success?
    ensures a in Questions.GetQuestion(qs, answers + [a], a.questionId).value.answers
  {
    var answers' := answers + [a];
    assert a in answers';
    var listed := Questions.GetQuestion(qs, answers', a.questionId).value.answers;
    assert multiset(listed)[a] == multiset(answers')[a];
  }

  /** `delete_answer`: exactly that answer goes, the tables stay valid, it is no longer
      found, and its question and every other answer are still there. */
  lemma DeleteAnswerStep(qs: seq<Question>, answers: seq<Answer>, nextQuestionId: int, nextAnswerId: int,
                         clock: Timestamp, id: int)
    requires Tables(qs, answers, nextQuestionId, nextAnswerId, clock)
    ensures var answers' := WithoutAnswer(answers, id);
      && Tables(qs, answers', nextQuestionId, nextAnswerId, clock)
      && Answers.GetAnswer(answers', id).Failure?
      && (forall b | b in answers && b.id != id :: b in answers')
  {
    Seqs.FilterKeepsIncreasing(answers, (a: Answer) => a.id != id, AnswerKey);
  }

  // ---------------------------------------------------------------- the store

  /** The database: the two tables, the next value of each id sequence, and the time. */
  class QaStore {
    var questions: seq<Question>
    var answers: seq<Answer>
    var nextQuestionId: int
    var nextAnswerId: int
    var clock: Timestamp

    ghost predicate Valid()
      reads this
    {
      Tables(questions, answers, nextQuestionId, nextAnswerId, clock)
    }

    /** An empty database whose sequences start at 1. */
    constructor ()
      ensures Valid()
      ensures questions == [] && answers == []
      ensures nextQuestionId == 1 && nextAnswerId == 1 && clock == 0
    {
      questions, answers := [], [];
      nextQuestionId, nextAnswerId := 1, 1;
      clock := 0;
    }

    /** `POST /questions/`: blank text is rejected and nothing changes; otherwise the
        stripped text is stored as a new question with a fresh id, stamped `elapsed` after
        the previous insert, and returned. Nothing else changes. */
    method CreateQuestion(text: string, elapsed: nat) returns (r: Result<Question, Error>)
      requires Valid()
      modifies this
      ensures Valid()
      ensures r.Failure? <==> Schemas.QuestionNotEmpty(text).Failure?
      ensures r.Failure? ==> r.error == ValidationError && unchanged(this)
      ensures r.Success? ==>
        && r.value == Question(old(nextQuestionId), Schemas.QuestionNotEmpty(text).value, old(clock) + elapsed)
        && questions == old(questions) + [r.value] && answers == old(answers)
        && nextQuestionId == old(nextQuestionId) + 1 && nextAnswerId == old(nextAnswerId)
        && clock == old(clock) + elapsed
    {
      var checked := Schemas.QuestionNotEmpty(text);
      if checked.Failure? {
        return Failure(checked.error);
      }
      var q := InsertQuestion(checked.value, elapsed);
      r := Success(q);
    }

    /** The body of `create_question`, on a validated text: the row gets the next id and
        the current time and goes to the end of the table. Nothing else changes. */
    method InsertQuestion(text: string, elapsed: nat) returns (q: Question)
      requires Valid() && Schemas.IsNormalText(text)
      modifies this
      ensures Valid()
      ensures q == Question(old(nextQuestionId), text, old(clock) + elapsed)
      ensures questions == old(questions) + [q] && answers == old(answers)
      ensures nextQuestionId == old(nextQuestionId) + 1 && nextAnswerId == old(nextAnswerId)
      ensures clock == old(clock) + elapsed
    {
      q := Question(nextQuestionId, text, clock + elapsed);
      CreateQuestionStep(questions, answers, nextQuestionId, nextAnswerId, clock, q);
      questions, nextQuestionId, clock := questions + [q], nextQuestionId + 1, clock + elapsed;
    }

    /** `DELETE /questions/{id}`: not found, and nothing changes, when there is no such
        question; otherwise it is deleted together with its answers. */
    method DeleteQuestion(id: int) returns (r: Result<(), Error>)
      requires Valid()
      modifies this
      ensures Valid()
      ensures r.Failure? <==> !HasQuestion(old(questions), id)
      ensures r.Failure? ==> r.error == NotFound && unchanged(this)
      ensures r.Success? ==>
        && questions == WithoutQuestion(old(questions), id)
        && answers == WithoutAnswersOf(old(answers), id)
        && nextQuestionId == old(nextQuestionId) && nextAnswerId == old(nextAnswerId) && clock == old(clock)
        && Questions.GetQuestion(questions, answers, id).Failure?
        && (forall a | a in old(answers) && a.questionId == id :: Answers.GetAnswer(answers, a.id).Failure?)
        && (forall q | q in old(questions) && q.id != id :: q in questions)
        && (forall a | a in old(answers) && a.questionId != id :: a in answers)
    {
      if FindQuestion(questions, id).None? {
        return Failure(NotFound);
      }
      DeleteQuestionStep(questions, answers, nextQuestionId, nextAnswerId, clock, id);
      questions, answers := WithoutQuestion(questions, id), WithoutAnswersOf(answers, id);
      r := Success(());
    }

    /** `add_answer_to_question` on a validated body: a missing question is not found and
        nothing changes; otherwise the answer is stored with a fresh id, the question's id,
        the UUID in its canonical spelling and the body's text, and returned. */
    method AddAnswerToQuestion(questionId: int, payload: Schemas.AnswerCreate, elapsed: nat)
      returns (r: Result<Answer, Error>)
      requires Valid()
      requires Schemas.IsNormalText(payload.text)
      modifies this
      ensures Valid()
      ensures r.Failure? <==> !HasQuestion(old(questions), questionId)
      ensures r.Failure? ==> r.error == NotFound && unchanged(this)
      ensures r.Success? ==>
        && r.value == Answer(old(nextAnswerId), questionId, Schemas.FormatUuid(payload.userId), payload.text,
                             old(clock) + elapsed)
        && answers == old(answers) + [r.value] && questions == old(questions)
        && nextAnswerId == old(nextAnswerId) + 1 && nextQuestionId == old(nextQuestionId)
        && clock == old(clock) + elapsed
    {
      if FindQuestion(questions, questionId).None? {
        return Failure(NotFound);
      }
      var stored := Schemas.FormatUuid(payload.userId);
      Schemas.FormatThenParseUuid(payload.userId);
      var a := Answer(nextAnswerId, questionId, stored, payload.text, clock + elapsed);
      AddAnswerStep(questions, answers, nextQuestionId, nextAnswerId, clock, a);
      answers, nextAnswerId, clock := answers + [a], nextAnswerId + 1, clock + elapsed;
      r := Success(a);
    }

    /** `POST /questions/{id}/answers/` as served: the body is validated first (a user id
        that is not a UUID, or blank text, is rejected and nothing changes), and only then
        is the question looked up. */
    method PostAnswer(questionId: int, userId: string, text: string, elapsed: nat)
      returns (r: Result<Answer, Error>)
      requires Valid()
      modifies this
      ensures Valid()
      ensures r.Failure? <==>
        Schemas.ValidateAnswerCreate(userId, text).Failure? || !HasQuestion(old(questions), questionId)
      ensures r.Failure? ==> unchanged(this)
      ensures r.Failure? ==>
        r.error == if Schemas.ValidateAnswerCreate(userId, text).Failure? then ValidationError else NotFound
      ensures r.Success? ==>
        var payload := Schemas.ValidateAnswerCreate(userId, text).value;
        && r.value == Answer(old(nextAnswerId), questionId, Schemas.FormatUuid(payload.userId), payload.text,
                             old(clock) + elapsed)
        && answers == old(answers) + [r.value] && questions == old(questions)
    {
      var payload := Schemas.ValidateAnswerCreate(userId, text);
      if payload.Failure? {
        return Failure(payload.error);
      }
      r := AddAnswerToQuestion(questionId, payload.value, elapsed);
    }

    /** `DELETE /answers/{id}`: not found, and nothing changes, when there is no such
        answer; otherwise exactly that answer is deleted. */
    method DeleteAnswer(id: int) returns (r: Result<(), Error>)
      requires Valid()
      modifies this
      ensures Valid()
      ensures r.Failure? <==> !HasAnswer(old(answers), id)
      ensures r.Failure? ==> r.error == NotFound && unchanged(this)
      ensures r.Success? ==>
        && answers == WithoutAnswer(old(answers), id) && questions == old(questions)
        && nextQuestionId == old(nextQuestionId) && nextAnswerId == old(nextAnswerId) && clock == old(clock)
        && Answers.GetAnswer(answers, id).Failure?
        && (forall b | b in old(answers) && b.id != id :: b in answers)
    {
      if Answers.GetAnswer(answers, id).Failure? {
        return Failure(NotFound);
      }
      DeleteAnswerStep(questions, answers, nextQuestionId, nextAnswerId, clock, id);
      answers := WithoutAnswer(answers, id);
      r := Success(());
    }
  }
}
