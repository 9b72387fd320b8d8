/**
 * The read-only routes under `/questions`: the filtered, sorted, paginated list with its
 * total count, and one question with its answers.
 */
module Questions {
  import opened Wrappers
  import opened Errors
  import opened Models
  import PyStr
  import Seqs
  import UrlQuote

  datatype SortColumn = ById | ByCreatedAt
  datatype Direction = Asc | Desc

  /** The list response: the page of questions and the count sent in the total-count header. */
  datatype Page = Page(items: seq<Question>, total: nat)

  /** `sort_by: Literal["id", "created_at"]`. */
  function ParseSortBy(s: string): (r: Option<SortColumn>)
    ensures r == Some(ById) <==> s == "id"
    ensures r == Some(ByCreatedAt) <==> s == "created_at"
  {
    if s == "id" then Some(ById) else if s == "created_at" then Some(ByCreatedAt) else None
  }

  /** `order: Literal["asc", "desc"]`. */
  function ParseOrder(s: string): (r: Option<Direction>)
    ensures r == Some(Asc) <==> s == "asc"
    ensures r == Some(Desc) <==> s == "desc"
  {
    if s == "asc" then Some(Asc) else if s == "desc" then Some(Desc) else None
  }

  /** The four query parameters that are checked before any query runs. */
  predicate ValidListParams(limit: int, offset: int, sortBy: string, order: string)
  {
    1 <= limit <= 100 && 0 <= offset && ParseSortBy(sortBy).Some? && ParseOrder(order).Some?
  }

  function Column(q: Question, c: SortColumn): int
  {
    match c
    case ById => q.id
    case ByCreatedAt => q.createdAt
  }

  /** The key whose ascending order is `ORDER BY column ASC` or `ORDER BY column DESC`. */
  function SortKey(c: SortColumn, d: Direction): Question -> int
  {
    (q: Question) => if d == Asc then Column(q, c) else -Column(q, c)
  }

  /** The rows go up (`Asc`) or down (`Desc`) in column `c`; ties in either order. */
  predicate InOrder(items: seq<Question>, c: SortColumn, d: Direction)
  {
    forall i, j | 0 <= i < j < |items| ::
      if d == Asc then Column(items[i], c) <= Column(items[j], c)
      else Column(items[i], c) >= Column(items[j], c)
  }

  /** The filter of both queries: `if q:` skips it for `None` and for `""`; otherwise the
      question text must contain `q`. */
  predicate Matches(x: Question, q: Option<string>)
  {
    q.None? || q.value == [] || PyStr.Contains(x.text, q.value)
  }

  /** The filter as a predicate on rows. */
  function Matcher(q: Option<string>): Question -> bool
  {
    (x: Question) => Matches(x, q)
  }

  function Filtered(questions: seq<Question>, q: Option<string>): seq<Question>
  {
    Seqs.Filter(questions, Matcher(q))
  }

  /** The questions the filter keeps, in the requested order, before the window is applied:
      `ORDER BY column dir, id`, the id breaking ties between equal values of the column
      (the code as written has no tie-break; see `OrderAllowedAsWritten`). */
  function Ordered(questions: seq<Question>, q: Option<string>, c: SortColumn, d: Direction): seq<Question>
  {
    Seqs.SortBy(Filtered(questions, q), SortKey(c, d), QuestionKey)
  }

  /** `GET /questions/`. Invalid parameters are rejected before anything is read; otherwise
      the page is the window `[offset, offset + limit)` of the filtered, ordered questions
      and the total is the number of questions the filter keeps. What that promises about
      the page is `ListedPageProperties`; what it promises about the total, `TotalCountsMatches`. */
  function ListQuestions(questions: seq<Question>, limit: int, offset: int, sortBy: string, order: string,
                         q: Option<string>): (r: Result<Page, Error>)
    ensures r.Failure? <==> !ValidListParams(limit, offset, sortBy, order)
    ensures r.Failure? ==> r.error == ValidationError
    ensures r.Success? ==>
      var ordered := Ordered(questions, q, ParseSortBy(sortBy).value, ParseOrder(order).value);
      r.value.total == |ordered| && r.value.items == Seqs.Window(ordered, offset, limit)
  {
    if !ValidListParams(limit, offset, sortBy, order) then Failure(ValidationError)
    else
      var ordered := Ordered(questions, q, ParseSortBy(sortBy).value, ParseOrder(order).value);
      Success(Page(Seqs.Window(ordered, offset, limit), |Filtered(questions, q)|))
  }

  /** The values a request that leaves a parameter out gets: `limit=20`, `offset=0`,
      `sort_by="id"`, `order="asc"`, no `q`. */
  const DefaultLimit: int := 20
  const DefaultOffset: int := 0
  const DefaultSortBy: string := "id"
  const DefaultOrder: string := "asc"
  const DefaultQuery: Option<string> := None

  /** A request with no parameters is valid and is answered with the first twenty
      questions in ascending id order, and the number of all stored questions. */
  lemma DefaultListRequest(questions: seq<Question>)
    ensures ValidListParams(DefaultLimit, DefaultOffset, DefaultSortBy, DefaultOrder)
    ensures var r := ListQuestions(questions, DefaultLimit, DefaultOffset, DefaultSortBy, DefaultOrder, DefaultQuery);
      && r.Success?
      && r.value.total == |questions|
      && r.value.items == Seqs.Window(Ordered(questions, None, ById, Asc), 0, 20)
  {
    Seqs.FilterAll(questions, Matcher(None));
  }

  /** A listed page holds at most `limit` questions, each of them stored and kept by the
      filter, in the requested order, questions with equal values of the column by id. */
  lemma ListedPageProperties(questions: seq<Question>, limit: int, offset: int, sortBy: string, order: string,
                             q: Option<string>)
    requires ValidListParams(limit, offset, sortBy, order)
    ensures var items := ListQuestions(questions, limit, offset, sortBy, order, q).value.items;
      && |items| <= limit
      && (forall x | x in items :: x in questions && Matches(x, q))
      && InOrder(items, ParseSortBy(sortBy).value, ParseOrder(order).value)
      && (forall i, j | 0 <= i < j < |items| && Column(items[i], ParseSortBy(sortBy).value) == Column(items[j], ParseSortBy(sortBy).value)
            :: items[i].id <= items[j].id)
  {
    var c, d := ParseSortBy(sortBy).value, ParseOrder(order).value;
    var matching := Filtered(questions, q);
    var ordered := Ordered(questions, q, c, d);
    var items := ListQuestions(questions, limit, offset, sortBy, order, q).value.items;
    Seqs.SortedThenBySortedBy(ordered, SortKey(c, d), QuestionKey);
    forall x | x in items ensures x in questions && Matches(x, q) {
      var i :| 0 <= i < |items| && items[i] == x;
      assert x in multiset(ordered);
    }
    forall i, j | 0 <= i < j < |items|
      ensures if d == Asc then Column(items[i], c) <= Column(items[j], c)
              else Column(items[i], c) >= Column(items[j], c)
    {
      assert SortKey(c, d)(ordered[offset + i]) <= SortKey(c, d)(ordered[offset + j]);
    }
    forall i, j | 0 <= i < j < |items| && Column(items[i], c) == Column(items[j], c)
      ensures items[i].id <= items[j].id
    {
      assert Seqs.LexLe(ordered[offset + i], ordered[offset + j], SortKey(c, d), QuestionKey);
    }
  }

  /** The total is the number of questions the filter keeps: what `SELECT count(*)` with the
      same `WHERE` returns. */
  lemma TotalCountsMatches(questions: seq<Question>, limit: int, offset: int, sortBy: string, order: string,
                           q: Option<string>)
    requires ValidListParams(limit, offset, sortBy, order)
    ensures ListQuestions(questions, limit, offset, sortBy, order, q).value.total == Seqs.Count(questions, Matcher(q))
  {
    Seqs.FilterSizeIsCount(questions, Matcher(q));
  }

  /** The total depends on the filter only, not on the window or the order. */
  lemma TotalIgnoresWindow(questions: seq<Question>, q: Option<string>,
                           limit1: int, offset1: int, sortBy1: string, order1: string,
                           limit2: int, offset2: int, sortBy2: string, order2: string)
    requires ValidListParams(limit1, offset1, sortBy1, order1)
    requires ValidListParams(limit2, offset2, sortBy2, order2)
    ensures ListQuestions(questions, limit1, offset1, sortBy1, order1, q).value.total
         == ListQuestions(questions, limit2, offset2, sortBy2, order2, q).value.total
  {
  }

  /** `n` pages of one listing, the first at `offset` and each one `limit` further on. */
  function ListedPages(questions: seq<Question>, limit: int, offset: int, sortBy: string, order: string,
                       q: Option<string>, n: nat): seq<Question>
    requires ValidListParams(limit, offset, sortBy, order)
    decreases n
  {
    if n == 0 then []
    else
      ListQuestions(questions, limit, offset, sortBy, order, q).value.items
        + ListedPages(questions, limit, offset + limit, sortBy, order, q, n - 1)
  }

  lemma PageIsWindow(questions: seq<Question>, limit: int, offset: int, sortBy: string, order: string,
                     q: Option<string>)
    requires ValidListParams(limit, offset, sortBy, order)
    ensures ListQuestions(questions, limit, offset, sortBy, order, q).Success?
    ensures ListQuestions(questions, limit, offset, sortBy, order, q).value.items
         == Seqs.Window(Ordered(questions, q, ParseSortBy(sortBy).value, ParseOrder(order).value), offset, limit)
  {
  }

  /** The first of `n` listed pages is the window at `offset` of the ordered matches. */
  lemma ListedPagesStep(questions: seq<Question>, limit: int, offset: int, sortBy: string, order: string,
                        q: Option<string>, n: nat)
    requires ValidListParams(limit, offset, sortBy, order)
    requires n > 0
    ensures ListedPages(questions, limit, offset, sortBy, order, q, n)
         == Seqs.Window(Ordered(questions, q, ParseSortBy(sortBy).value, ParseOrder(order).value), offset, limit)
            + ListedPages(questions, limit, offset + limit, sortBy, order, q, n - 1)
  {
    PageIsWindow(questions, limit, offset, sortBy, order, q);
  }

  lemma {:induction false} ListedPagesArePages(questions: seq<Question>, limit: int, offset: int, sortBy: string,
                                               order: string, q: Option<string>, n: nat)
    requires ValidListParams(limit, offset, sortBy, order)
    ensures ListedPages(questions, limit, offset, sortBy, order, q, n)
         == Seqs.Pages(Ordered(questions, q, ParseSortBy(sortBy).value, ParseOrder(order).value), offset, limit, n)
    decreases n
  {
    if n > 0 {
      ListedPagesStep(questions, limit, offset, sortBy, order, q, n);
      ListedPagesArePages(questions, limit, offset + limit, sortBy, order, q, n - 1);
    }
  }

  /** Reading a listing page by page from offset 0, with no write in between, gives every
      question the filter keeps exactly once and in order: `n` pages are the first
      `n * limit` of them, and once `n * limit` reaches the total they are all of them. */
  lemma ListedPagesCoverListing(questions: seq<Question>, limit: int, sortBy: string, order: string,
                                q: Option<string>, n: nat)
    requires ValidListParams(limit, 0, sortBy, order)
    ensures var ordered := Ordered(questions, q, ParseSortBy(sortBy).value, ParseOrder(order).value);
      var pages := ListedPages(questions, limit, 0, sortBy, order, q, n);
      pages <= ordered && |pages| == Seqs.Min(n * limit, |ordered|)
    ensures var ordered := Ordered(questions, q, ParseSortBy(sortBy).value, ParseOrder(order).value);
      n * limit >= |ordered| ==> ListedPages(questions, limit, 0, sortBy, order, q, n) == ordered
  {
    var ordered := Ordered(questions, q, ParseSortBy(sortBy).value, ParseOrder(order).value);
    ListedPagesArePages(questions, limit, 0, sortBy, order, q, n);
    Seqs.PagesFromStartArePrefix(ordered, limit, n);
  }

  /** Where creation times never decrease with the id, as in the store, the page sorted by
      id ascending is also in ascending creation-time order. */
  lemma IdOrderIsCreationOrder(questions: seq<Question>, limit: int, offset: int, q: Option<string>)
    requires QuestionsStampedInIdOrder(questions)
    requires 1 <= limit <= 100 && 0 <= offset
    ensures var items := ListQuestions(questions, limit, offset, "id", "asc", q).value.items;
      forall i, j | 0 <= i < j < |items| :: items[i].createdAt <= items[j].createdAt
  {
    ListedPageProperties(questions, limit, offset, "id", "asc", q);
    var items := ListQuestions(questions, limit, offset, "id", "asc", q).value.items;
    forall i, j | 0 <= i < j < |items| ensures items[i].createdAt <= items[j].createdAt {
      assert items[i] in items && items[j] in items;
      assert Column(items[i], ById) <= Column(items[j], ById);
    }
  }

  /** `GET /questions/{id}`: not found when no question has that id; otherwise the question
      with exactly its answers, in ascending id order. */
  function GetQuestion(questions: seq<Question>, answers: seq<Answer>, id: int): (r: Result<QuestionWithAnswers, Error>)
    ensures r.Failure? <==> !HasQuestion(questions, id)
    ensures r.Failure? ==> r.error == NotFound
    ensures r.Success? ==>
      && r.value.question in questions && r.value.question.id == id
      && (forall i, j | 0 <= i < j < |r.value.answers| :: r.value.answers[i].id <= r.value.answers[j].id)
      && (forall a :: multiset(r.value.answers)[a] == if a.questionId == id then multiset(answers)[a] else 0)
  {
    match FindQuestion(questions, id)
    case None => Failure(NotFound)
    case Some(question) => Success(QuestionWithAnswers(question, OrderedAnswersOf(answers, id)))
  }

  // ---------------------------------------------------------------- the code as written

  /** The pattern language of PostgreSQL's `LIKE`: `%` matches any run of characters, `_` any
      one character, and a backslash makes the character after it literal. */
  function LikeMatch(t: string, p: string): bool
    decreases |t| + |p|
  {
    if p == [] then t == []
    else if p[0] == '%' then LikeMatch(t, p[1..]) || (t != [] && LikeMatch(t[1..], p))
    else if p[0] == '_' then t != [] && LikeMatch(t[1..], p[1..])
    else if p[0] == '\\' && |p| >= 2 then t != [] && t[0] == p[1] && LikeMatch(t[1..], p[2..])
    else t != [] && t[0] == p[0] && LikeMatch(t[1..], p[1..])
  }

  /** `Question.text.contains(q)` as SQLAlchemy renders it without `autoescape`:
      `text LIKE '%' || q || '%'`, so the wildcards in `q` stay wildcards. */
  predicate ContainsAsWritten(text: string, q: string)
  {
    LikeMatch(text, "%" + q + "%")
  }

  /** The filter as written lets through a text that does not contain `q`: `_` is read as a wildcard. */
  lemma ContainsAsWrittenIsNotSubstring()
    ensures ContainsAsWritten("a", "_") && !PyStr.Contains("a", "_")
  {
    assert LikeMatch("a", "_%") by {
      assert LikeMatch([], "%");
    }
    assert "%_%"[1..] == "_%";
    assert !PyStr.OccursAt("a", "_", 0);
  }

  /** The probing bit of `LIKE '%' || q || '%'`: a literal `q` followed by `%` matches exactly
      the texts that begin with `q`. */
  lemma {:induction false} LiteralThenAnyMatchesPrefixes(t: string, q: string)
    requires forall i | 0 <= i < |q| :: q[i] != '%' && q[i] != '_' && q[i] != '\\'
    ensures LikeMatch(t, q + "%") <==> |q| <= |t| && t[..|q|] == q
  {
    if q == [] {
      assert q + "%" == "%";
      LikeMatchAnyAll(t);
    } else {
      assert (q + "%")[1..] == q[1..] + "%";
      if t != [] {
        LiteralThenAnyMatchesPrefixes(t[1..], q[1..]);
        if |q| <= |t| && t[..|q|] == q {
          assert t[1..][..|q| - 1] == q[1..];
        }
        if |q| <= |t| && t[0] == q[0] && t[1..][..|q| - 1] == q[1..] {
          assert t[..|q|] == [t[0]] + t[1..][..|q| - 1];
        }
      }
    }
  }

  lemma {:induction false} LikeMatchAnyAll(t: string)
    ensures LikeMatch(t, "%")
    decreases |t|
  {
    if t != [] {
      LikeMatchAnyAll(t[1..]);
    } else {
      assert "%"[1..] == [];
    }
  }

  /** A leading `%` tries every position: `LIKE '%' || rest` matches when `rest` matches
      at some suffix of the text. */
  lemma {:induction false} AnyThenMatchesSomeSuffix(t: string, rest: string)
    ensures LikeMatch(t, "%" + rest) <==> exists k | 0 <= k <= |t| :: LikeMatch(t[k..], rest)
    decreases |t|
  {
    var p := "%" + rest;
    assert p[1..] == rest;
    assert t[0..] == t;
    if t != [] {
      AnyThenMatchesSomeSuffix(t[1..], rest);
      if LikeMatch(t[1..], p) {
        var k :| 0 <= k <= |t[1..]| && LikeMatch(t[1..][k..], rest);
        assert t[1..][k..] == t[k + 1..];
      }
      if exists k | 0 <= k <= |t| :: LikeMatch(t[k..], rest) {
        var k :| 0 <= k <= |t| && LikeMatch(t[k..], rest);
        if k > 0 {
          assert t[1..][k - 1..] == t[k..];
        }
      }
    }
  }

  /** Where `q` holds no `%`, `_` or backslash, the filter as written is exactly the
      substring test used in this model. */
  lemma ContainsAsWrittenOnPlainText(t: string, q: string)
    requires forall i | 0 <= i < |q| :: q[i] != '%' && q[i] != '_' && q[i] != '\\'
    ensures ContainsAsWritten(t, q) <==> PyStr.Contains(t, q)
  {
    assert "%" + q + "%" == "%" + (q + "%");
    AnyThenMatchesSomeSuffix(t, q + "%");
    forall k | 0 <= k <= |t|
      ensures LikeMatch(t[k..], q + "%") <==> PyStr.OccursAt(t, q, k)
    {
      LiteralThenAnyMatchesPrefixes(t[k..], q);
      if |q| <= |t[k..]| {
        assert t[k..][..|q|] == t[k..k + |q|];
      }
    }
    if PyStr.Contains(t, q) {
      var k :| 0 <= k <= |t| - |q| && PyStr.OccursAt(t, q, k);
      assert LikeMatch(t[k..], q + "%");
    }
  }

  /** The name the page's total is sent under: `X-Total-Count`, Latin-1 as header names
      must be. */
  const TotalHeader: string := "X-Total-Count"

  /** The name app/api/questions.py:42 sends the total under. */
  const TotalHeaderAsWritten: string := "X-Общее-Количество"

  /** Every character is one Latin-1 code point, below U+0100. */
  predicate IsLatin1(s: string)
  {
    forall i | 0 <= i < |s| :: s[i] as int < 256
  }

  /** `name.encode("latin-1")`, which Starlette applies to every header name it sets:
      one byte per character, the code point, or `None` (`UnicodeEncodeError`). */
  function EncodeLatin1(s: string): (r: Option<seq<UrlQuote.Byte>>)
    ensures r.Some? <==> IsLatin1(s)
    ensures r.Some? ==> |r.value| == |s| && forall i | 0 <= i < |s| :: r.value[i] == s[i] as int
  {
    if s == [] then Some([])
    else if s[0] as int >= 256 then None
    else
      assert IsLatin1(s) <==> IsLatin1(s[1..]) by {
        if IsLatin1(s[1..]) {
          forall i | 1 <= i < |s| ensures s[i] as int < 256 {
            assert s[i] == s[1..][i - 1];
          }
        }
      }
      match EncodeLatin1(s[1..])
      case None => None
      case Some(t) => Some([s[0] as int] + t)
  }

  /** The name as written cannot be encoded: its third character is the Cyrillic `О`. */
  lemma HeaderAsWrittenIsNotLatin1()
    ensures EncodeLatin1(TotalHeaderAsWritten).None?
  {
    assert TotalHeaderAsWritten[2] as int == 0x041e;
  }

  /** The intended name encodes, each byte its character's code. */
  lemma TotalHeaderIsLatin1()
    ensures EncodeLatin1(TotalHeader).Some?
    ensures |EncodeLatin1(TotalHeader).value| == |TotalHeader|
  {
    assert IsLatin1(TotalHeader) by {
      forall i | 0 <= i < |TotalHeader| ensures TotalHeader[i] as int < 256 {
        assert TotalHeader[i] in "X-Total-Count";
      }
    }
  }

  /** The exceptions the list handler as written raises. */
  datatype Raised = UnicodeEncodeError | TypeError

  /** What the list handler as written does with a request: FastAPI rejects it before the
      handler runs, or the handler raises. */
  datatype HandlerOutcome = Rejected | Raises(exception: Raised)

  /** `list_questions` as written, sending the total under `header`. Invalid parameters
      never reach it. Setting the header (line 42) raises `UnicodeEncodeError` unless the
      name is Latin-1; past it, `list(result.scalars().all)` (line 54) hands `list` the
      method `all` instead of the rows and raises `TypeError`. */
  function ListHandlerAsWritten(limit: int, offset: int, sortBy: string, order: string,
                                header: string): (r: HandlerOutcome)
    ensures r == Rejected <==> !ValidListParams(limit, offset, sortBy, order)
    ensures r == Raises(UnicodeEncodeError) <==> ValidListParams(limit, offset, sortBy, order) && !IsLatin1(header)
    ensures r == Raises(TypeError) <==> ValidListParams(limit, offset, sortBy, order) && IsLatin1(header)
  {
    if !ValidListParams(limit, offset, sortBy, order) then Rejected
    else if EncodeLatin1(header).None? then Raises(UnicodeEncodeError)
    else Raises(TypeError)
  }

  /** `GET /questions/` as written, as the client sees it: a rejected request is a 422 and
      an exception escaping the handler a 500, whichever line raised it. */
  function ListQuestionsAsWritten(questions: seq<Question>, limit: int, offset: int, sortBy: string, order: string,
                                  q: Option<string>, header: string): (r: Result<Page, Error>)
    ensures r.Failure?
    ensures r.error == InternalError <==> ValidListParams(limit, offset, sortBy, order)
    ensures !ValidListParams(limit, offset, sortBy, order) ==> r.error == ValidationError
  {
    match ListHandlerAsWritten(limit, offset, sortBy, order, header)
    case Rejected => Failure(ValidationError)
    case Raises(_) => Failure(InternalError)
  }

  /** Where the code as written fails, the corrected listing returns the page. With the
      header name as written the failure is line 42's; with `X-Total-Count` it is still
      line 54's. */
  lemma ListAsWrittenNeverSucceeds(questions: seq<Question>, limit: int, offset: int, sortBy: string, order: string,
                                   q: Option<string>)
    requires ValidListParams(limit, offset, sortBy, order)
    ensures ListHandlerAsWritten(limit, offset, sortBy, order, TotalHeaderAsWritten) == Raises(UnicodeEncodeError)
    ensures ListHandlerAsWritten(limit, offset, sortBy, order, TotalHeader) == Raises(TypeError)
    ensures ListQuestionsAsWritten(questions, limit, offset, sortBy, order, q, TotalHeaderAsWritten) == Failure(InternalError)
    ensures ListQuestionsAsWritten(questions, limit, offset, sortBy, order, q, TotalHeader) == Failure(InternalError)
    ensures ListQuestions(questions, limit, offset, sortBy, order, q).Success?
  {
    HeaderAsWrittenIsNotLatin1();
    TotalHeaderIsLatin1();
  }

  /** The orders `ORDER BY column dir` with no tie-break leaves the database free to return:
      the rows the filter keeps, each as often as stored, going up or down in the column,
      rows with equal values in any order. Each request may get a different one of them. */
  predicate OrderAllowedAsWritten(o: seq<Question>, questions: seq<Question>, q: Option<string>,
                                  c: SortColumn, d: Direction)
  {
    multiset(o) == multiset(Filtered(questions, q)) && InOrder(o, c, d)
  }

  /** `n` pages, the `k`-th read from the `k`-th of `orders` at `offset + k * limit`: what
      consecutive requests return when each query may order the rows its own way. */
  function PagesOfOrders(orders: seq<seq<Question>>, offset: nat, limit: nat): seq<Question>
    decreases |orders|
  {
    if orders == [] then []
    else Seqs.Window(orders[0], offset, limit) + PagesOfOrders(orders[1..], offset + limit, limit)
  }

  /** Two rows with equal creation times may come back in either order. */
  lemma EqualStampsEitherOrder(a: Question, b: Question, d: Direction)
    requires a.createdAt == b.createdAt
    ensures OrderAllowedAsWritten([a, b], [a, b], None, ByCreatedAt, d)
    ensures OrderAllowedAsWritten([b, a], [a, b], None, ByCreatedAt, d)
  {
    var all := [a, b];
    Seqs.FilterAll(all, Matcher(None));
    assert Filtered(all, None) == all;
    EqualStampsInOrder(a, b, d);
    EqualStampsInOrder(b, a, d);
    SwappedPair(a, b);
  }

  lemma SwappedPair(a: Question, b: Question)
    ensures multiset([b, a]) == multiset([a, b])
  {
  }

  lemma EqualStampsInOrder(a: Question, b: Question, d: Direction)
    requires a.createdAt == b.createdAt
    ensures InOrder([a, b], ByCreatedAt, d)
  {
  }

  /** Reading one row from the first order and then one from the second at offset 1. */
  lemma TwoSingleRowPages(a: Question, b: Question)
    ensures PagesOfOrders([[b, a], [a, b]], 0, 1) == [b, b]
  {
    assert [[b, a], [a, b]][1..] == [[a, b]];
    assert PagesOfOrders([[a, b]], 1, 1) == Seqs.Window([a, b], 1, 1) + PagesOfOrders([], 2, 1);
    assert PagesOfOrders([[b, a], [a, b]], 0, 1) == Seqs.Window([b, a], 0, 1) + PagesOfOrders([[a, b]], 1, 1);
  }

  /** As written, two requests for consecutive pages of a `created_at` listing can both
      return the same question and never the other one: two questions created at the same
      instant, `limit = 1`, the first query ordering them one way and the second the other. */
  lemma PagingAsWrittenCanRepeat()
    ensures var a, b := Question(1, "a", 0), Question(2, "b", 0);
      && OrderAllowedAsWritten([b, a], [a, b], None, ByCreatedAt, Asc)
      && OrderAllowedAsWritten([a, b], [a, b], None, ByCreatedAt, Asc)
      && PagesOfOrders([[b, a], [a, b]], 0, 1) == [b, b]
      && a !in PagesOfOrders([[b, a], [a, b]], 0, 1)
  {
    var a, b := Question(1, "a", 0), Question(2, "b", 0);
    EqualStampsEitherOrder(a, b, Asc);
    TwoSingleRowPages(a, b);
  }

  /** With the id as tie-break the order is determined: any ordering of the rows the filter
      keeps by (column, id) is the one `Ordered` lists, so every request of a paging
      sequence sees the same order. */
  lemma TieBrokenOrderIsDetermined(questions: seq<Question>, q: Option<string>, c: SortColumn, d: Direction,
                                   o: seq<Question>)
    requires UniqueIds(questions)
    requires multiset(o) == multiset(Filtered(questions, q))
    requires Seqs.SortedThenBy(o, SortKey(c, d), QuestionKey)
    ensures o == Ordered(questions, q, c, d)
  {
    var ordered := Ordered(questions, q, c, d);
    forall x | x in o ensures x in questions {
      assert x in multiset(Filtered(questions, q));
    }
    Seqs.SortedThenByUnique(o, ordered, SortKey(c, d), QuestionKey);
  }

  /** No two stored questions share an id: the primary key. */
  predicate UniqueIds(questions: seq<Question>)
  {
    forall x, y | x in questions && y in questions && x.id == y.id :: x == y
  }

  /** The column alone tells stored questions apart: it is the id, or no two questions were
      created at the same instant. */
  predicate ColumnTellsApart(questions: seq<Question>, c: SortColumn)
  {
    c == ById || forall x, y | x in questions && y in questions && x.id != y.id :: x.createdAt != y.createdAt
  }

  /** Every one of `orders` is an order the code as written may return. */
  predicate AllAllowedAsWritten(orders: seq<seq<Question>>, questions: seq<Question>, q: Option<string>,
                                c: SortColumn, d: Direction)
    decreases |orders|
  {
    orders == [] || (OrderAllowedAsWritten(orders[0], questions, q, c, d) && AllAllowedAsWritten(orders[1..], questions, q, c, d))
  }

  /** Where the column alone tells the rows apart (sorting by id, or creation times that all
      differ) the code as written has only one order to return: the one `Ordered` lists. */
  lemma AsWrittenOrderIsDeterminedOnKeys(questions: seq<Question>, q: Option<string>, c: SortColumn, d: Direction,
                                         o: seq<Question>)
    requires UniqueIds(questions)
    requires ColumnTellsApart(questions, c)
    requires OrderAllowedAsWritten(o, questions, q, c, d)
    ensures o == Ordered(questions, q, c, d)
  {
    forall x | x in o ensures x in questions {
      assert x in multiset(Filtered(questions, q));
    }
    forall i, j | 0 <= i < j < |o| ensures Seqs.LexLe(o[i], o[j], SortKey(c, d), QuestionKey) {
      assert o[i] in o && o[j] in o;
      if Column(o[i], c) == Column(o[j], c) {
        assert o[i] == o[j];
      }
    }
    TieBrokenOrderIsDetermined(questions, q, c, d, o);
  }

  /** The corrected listing is one of the orders the code as written may return: the id
      tie-break only chooses among them. */
  lemma CorrectedIsAllowedAsWritten(questions: seq<Question>, q: Option<string>, c: SortColumn, d: Direction)
    ensures OrderAllowedAsWritten(Ordered(questions, q, c, d), questions, q, c, d)
  {
    var o := Ordered(questions, q, c, d);
    Seqs.SortedThenBySortedBy(o, SortKey(c, d), QuestionKey);
    forall i, j | 0 <= i < j < |o|
      ensures if d == Asc then Column(o[i], c) <= Column(o[j], c) else Column(o[i], c) >= Column(o[j], c)
    {
      assert SortKey(c, d)(o[i]) <= SortKey(c, d)(o[j]);
    }
  }

  /** The first page read as written, under the same condition, is the listed page. */
  lemma AsWrittenPageOnKeys(questions: seq<Question>, limit: int, offset: int, sortBy: string, order: string,
                            q: Option<string>, o: seq<Question>)
    requires ValidListParams(limit, offset, sortBy, order)
    requires UniqueIds(questions)
    requires ColumnTellsApart(questions, ParseSortBy(sortBy).value)
    requires OrderAllowedAsWritten(o, questions, q, ParseSortBy(sortBy).value, ParseOrder(order).value)
    ensures Seqs.Window(o, offset, limit) == ListQuestions(questions, limit, offset, sortBy, order, q).value.items
  {
    AsWrittenOrderIsDeterminedOnKeys(questions, q, ParseSortBy(sortBy).value, ParseOrder(order).value, o);
  }

  /** Under the same condition, consecutive pages read as written are the listed pages, so
      `ListedPagesCoverListing` holds of the `ORDER BY` as written too. */
  lemma {:induction false} AsWrittenPagingOnKeys(questions: seq<Question>, limit: int, offset: int, sortBy: string,
                                                 order: string, q: Option<string>, orders: seq<seq<Question>>)
    requires ValidListParams(limit, offset, sortBy, order)
    requires UniqueIds(questions)
    requires ColumnTellsApart(questions, ParseSortBy(sortBy).value)
    requires AllAllowedAsWritten(orders, questions, q, ParseSortBy(sortBy).value, ParseOrder(order).value)
    ensures PagesOfOrders(orders, offset, limit) == ListedPages(questions, limit, offset, sortBy, order, q, |orders|)
    decreases |orders|
  {
    if orders != [] {
      AsWrittenPageOnKeys(questions, limit, offset, sortBy, order, q, orders[0]);
      AsWrittenPagingOnKeys(questions, limit, offset + limit, sortBy, order, q, orders[1..]);
    }
  }
}
