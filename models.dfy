/**
 * The two tables of the service and the relationship between them: a question owns its
 * answers, which it lists in ascending id order and which go with it when it is deleted.
 */
module Models {
  import opened Wrappers
  import Seqs

  /** When a row was created. The store's clock never runs backwards. */
  type Timestamp = nat

  /** A row of table `question`. */
  datatype Question = Question(id: int, text: string, createdAt: Timestamp)

  /** A row of table `answers`; `userId` is the UUID as the 36-character text that is stored. */
  datatype Answer = Answer(id: int, questionId: int, userId: string, text: string, createdAt: Timestamp)

  /** A question with its `answers` relationship loaded. */
  datatype QuestionWithAnswers = QuestionWithAnswers(question: Question, answers: seq<Answer>)

  function QuestionKey(q: Question): int { q.id }
  function AnswerKey(a: Answer): int { a.id }

  predicate HasQuestion(qs: seq<Question>, id: int)
  {
    exists q | q in qs :: q.id == id
  }

  predicate HasAnswer(answers: seq<Answer>, id: int)
  {
    exists a | a in answers :: a.id == id
  }

  /** The foreign key `answers.question_id -> question.id` holds for every answer. */
  predicate NoOrphans(qs: seq<Question>, answers: seq<Answer>)
  {
    forall a | a in answers :: HasQuestion(qs, a.questionId)
  }

  /** Rows created later never carry an earlier timestamp. */
  predicate QuestionsStampedInIdOrder(qs: seq<Question>)
  {
    forall x, y | x in qs && y in qs && x.id <= y.id :: x.createdAt <= y.createdAt
  }

  predicate AnswersStampedInIdOrder(answers: seq<Answer>)
  {
    forall x, y | x in answers && y in answers && x.id <= y.id :: x.createdAt <= y.createdAt
  }

  /** The first question with this id, if any. */
  function FindQuestion(qs: seq<Question>, id: int): (r: Option<Question>)
    ensures r.Some? <==> HasQuestion(qs, id)
    ensures r.Some? ==> r.value in qs && r.value.id == id
  {
    if qs == [] then None
    else if qs[0].id == id then Some(qs[0])
    else
      var r := FindQuestion(qs[1..], id);
      assert forall q | q in qs && q != qs[0] :: q in qs[1..];
      r
  }

  /** The first answer with this id, if any. */
  function FindAnswer(answers: seq<Answer>, id: int): (r: Option<Answer>)
    ensures r.Some? <==> HasAnswer(answers, id)
    ensures r.Some? ==> r.value in answers && r.value.id == id
  {
    if answers == [] then None
    else if answers[0].id == id then Some(answers[0])
    else
      var r := FindAnswer(answers[1..], id);
      assert forall a | a in answers && a != answers[0] :: a in answers[1..];
      r
  }

  /** The answers of question `qid`, in table order. */
  function AnswersOf(answers: seq<Answer>, qid: int): seq<Answer>
  {
    Seqs.Filter(answers, (a: Answer) => a.questionId == qid)
  }

  /** The `answers` relationship of question `qid`: its answers ordered by `Answer.id`
      (a key, so it needs no tie-break of its own). */
  function OrderedAnswersOf(answers: seq<Answer>, qid: int): (r: seq<Answer>)
    ensures Seqs.SortedBy(r, AnswerKey)
    ensures forall a :: multiset(r)[a] == if a.questionId == qid then multiset(answers)[a] else 0
  {
    Seqs.FilterMultiset(answers, (a: Answer) => a.questionId == qid);
    var r := Seqs.SortBy(AnswersOf(answers, qid), AnswerKey, AnswerKey);
    Seqs.SortedThenBySortedBy(r, AnswerKey, AnswerKey);
    r
  }

  /** A question that no answer refers to lists no answers. */
  lemma NoAnswersOfUnreferenced(answers: seq<Answer>, qid: int)
    requires forall a | a in answers :: a.questionId != qid
    ensures OrderedAnswersOf(answers, qid) == []
  {
  }

  /** The question table without question `id`. */
  function WithoutQuestion(qs: seq<Question>, id: int): seq<Question>
  {
    Seqs.Filter(qs, (q: Question) => q.id != id)
  }

  /** The answer table after the cascade: without the answers of question `qid`. */
  function WithoutAnswersOf(answers: seq<Answer>, qid: int): seq<Answer>
  {
    Seqs.Filter(answers, (a: Answer) => a.questionId != qid)
  }

  /** The answer table without answer `id`. */
  function WithoutAnswer(answers: seq<Answer>, id: int): seq<Answer>
  {
    Seqs.Filter(answers, (a: Answer) => a.id != id)
  }

  /** Deleting a question together with its answers keeps the foreign key intact. */
  lemma CascadeKeepsNoOrphans(qs: seq<Question>, answers: seq<Answer>, id: int)
    requires NoOrphans(qs, answers)
    ensures NoOrphans(WithoutQuestion(qs, id), WithoutAnswersOf(answers, id))
  {
    var qs', answers' := WithoutQuestion(qs, id), WithoutAnswersOf(answers, id);
    forall a | a in answers' ensures HasQuestion(qs', a.questionId) {
      var q :| q in qs && q.id == a.questionId;
      assert q in qs';
    }
  }

  /** Deleting the question alone, as a store without the cascade would, can leave orphans. */
  lemma DeleteWithoutCascadeOrphans()
    ensures var qs, answers := [Question(1, "Q", 0)], [Answer(1, 1, "", "A", 0)];
      NoOrphans(qs, answers) && !NoOrphans(WithoutQuestion(qs, 1), answers)
  {
    var qs, answers := [Question(1, "Q", 0)], [Answer(1, 1, "", "A", 0)];
    assert qs[0] in qs;
    assert answers[0] in answers;
    assert WithoutQuestion(qs, 1) == [];
  }
}
