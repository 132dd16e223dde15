/**
  The request handlers of core/views.py over an in-memory record store.

  The list views are pure: a conjunctive filter over the questions, newest
  first. The four handlers that write are methods of `Store`, whose fields
  are the tables; each handler takes the signed-in user and the submitted
  form data as parameters and answers with a `Response` in place of the
  rendered page or redirect. Primary keys come from one counter and
  `created_at` from another, so the tables are kept in creation order.
 */
module Views {
  import opened Wrappers
  import opened Seqs
  import opened Strings
  import opened Models
  import opened Forms
  import CoreExtras

  // ---------------------------------------------------------------------
  // The list views

  /**
    The query parameters the filters read: the search text `q`, the raw
    `status` value and the `subject` key (`None` for an empty parameter).
   */
  datatype Params = Params(q: string, status: string, subject: Option<nat>)

  /** The text criterion: the term occurs, ignoring case, in the title or the body. */
  predicate TextMatches(x: Question, term: string)
  {
    ContainsCI(x.title, term) || ContainsCI(x.body, term)
  }

  /**
    The reference meaning of the filters: each criterion applies only when
    given (an unknown status counts as not given), and all that apply must hold.
   */
  predicate Matches(x: Question, p: Params)
  {
    && (p.q == "" || TextMatches(x, p.q))
    && (ParseStatus(p.status).None? || x.status == ParseStatus(p.status).value)
    && (p.subject.None? || x.subject == p.subject)
  }

  /** `_apply_filters`: the three criteria narrow the query set one after the other. */
  function ApplyFilters(qs: seq<Question>, p: Params): seq<Question>
  {
    var byText := if p.q != "" then Filter(qs, (x: Question) => TextMatches(x, p.q)) else qs;
    var byStatus := if ParseStatus(p.status).Some? then Filter(byText, (x: Question) => x.status == ParseStatus(p.status).value) else byText;
    if p.subject.Some? then Filter(byStatus, (x: Question) => x.subject == p.subject) else byStatus
  }

  /** Questions in the order they were created (each strictly after the one before). */
  ghost predicate CreationOrdered(qs: seq<Question>)
  {
    Pairwise(qs, (a: Question, b: Question) => a.createdAt < b.createdAt)
  }

  /** Newest first: `created_at` strictly decreases along the sequence. */
  ghost predicate NewestFirst(qs: seq<Question>)
  {
    Pairwise(qs, (a: Question, b: Question) => a.createdAt > b.createdAt)
  }

  /**
    `order_by("-created_at")`. The tables are kept in creation order, so
    newest first is the reverse of the table.
   */
  function ByNewest(qs: seq<Question>): (r: seq<Question>)
    ensures CreationOrdered(qs) ==> NewestFirst(r)
    ensures forall x :: x in r <==> x in qs
  {
    var r := Reverse(qs);
    assert CreationOrdered(qs) ==> forall i, j :: 0 <= i < j < |r| ==> r[i].createdAt > r[j].createdAt by {
      if CreationOrdered(qs) {
        forall i, j | 0 <= i < j < |r| ensures r[i].createdAt > r[j].createdAt {
          assert r[i] == qs[|qs| - 1 - i] && r[j] == qs[|qs| - 1 - j];
        }
      }
    }
    assert forall x :: x in r ==> x in qs;
    assert forall x :: x in qs ==> x in r by {
      forall x | x in qs ensures x in r {
        var k :| 0 <= k < |qs| && qs[k] == x;
        assert r[|qs| - 1 - k] == x;
      }
    }
    r
  }

  /** `question_list`: the questions that are not canceled, newest first, then filtered. */
  function QuestionList(all: seq<Question>, p: Params): seq<Question>
  {
    ApplyFilters(ByNewest(Filter(all, (x: Question) => !x.canceled)), p)
  }

  /** `my_questions`: the user's own questions, canceled ones included, newest first, then filtered. */
  function MyQuestions(all: seq<Question>, user: UserId, p: Params): seq<Question>
  {
    ApplyFilters(ByNewest(Filter(all, (x: Question) => x.author == user)), p)
  }

  /**
    `_apply_filters` is the single filter by the conjunction of the given
    criteria: an order-preserving subsequence holding exactly the
    questions that match.
   */
  lemma {:induction false} ApplyFiltersIsConjunction(qs: seq<Question>, p: Params)
    ensures ApplyFilters(qs, p) == Filter(qs, (x: Question) => Matches(x, p))
    ensures IsSubsequence(ApplyFilters(qs, p), qs)
    ensures forall x :: x in ApplyFilters(qs, p) <==> x in qs && Matches(x, p)
  {
    var t := (x: Question) => p.q == "" || TextMatches(x, p.q);
    var st := (x: Question) => ParseStatus(p.status).None? || x.status == ParseStatus(p.status).value;
    var sb := (x: Question) => p.subject.None? || x.subject == p.subject;
    var ts := (x: Question) => t(x) && st(x);
    var all := (x: Question) => Matches(x, p);
    var byText := if p.q != "" then Filter(qs, (x: Question) => TextMatches(x, p.q)) else qs;
    assert byText == Filter(qs, t) by {
      if p.q != "" {
        FilterExtensional(qs, (x: Question) => TextMatches(x, p.q), t);
      } else {
        FilterKeepsAll(qs, t);
      }
    }
    var byStatus := if ParseStatus(p.status).Some? then Filter(byText, (x: Question) => x.status == ParseStatus(p.status).value) else byText;
    assert byStatus == Filter(byText, st) by {
      if ParseStatus(p.status).Some? {
        FilterExtensional(byText, (x: Question) => x.status == ParseStatus(p.status).value, st);
      } else {
        FilterKeepsAll(byText, st);
      }
    }
    FilterFilter(qs, t, st, ts);
    var r := if p.subject.Some? then Filter(byStatus, (x: Question) => x.subject == p.subject) else byStatus;
    assert r == Filter(byStatus, sb) by {
      if p.subject.Some? {
        FilterExtensional(byStatus, (x: Question) => x.subject == p.subject, sb);
      } else {
        FilterKeepsAll(byStatus, sb);
      }
    }
    FilterFilter(qs, ts, sb, all);
    FilterIsSubsequence(qs, all);
    forall x ensures x in r <==> x in qs && Matches(x, p) {
      FilterMembership(qs, all, x);
    }
  }

  /** Leaving out a criterion can only widen the result. */
  lemma FiltersMonotone(qs: seq<Question>, p: Params)
    ensures forall x :: x in ApplyFilters(qs, p) ==> x in ApplyFilters(qs, p.(q := ""))
    ensures forall x :: x in ApplyFilters(qs, p) ==> x in ApplyFilters(qs, p.(status := ""))
    ensures forall x :: x in ApplyFilters(qs, p) ==> x in ApplyFilters(qs, p.(subject := None))
  {
    ApplyFiltersIsConjunction(qs, p);
    ApplyFiltersIsConjunction(qs, p.(q := ""));
    ApplyFiltersIsConjunction(qs, p.(status := ""));
    ApplyFiltersIsConjunction(qs, p.(subject := None));
  }

  /** Sorting newest first, then filtering, keeps the newest-first order. */
  lemma FilteredNewestFirst(qs: seq<Question>, p: Params)
    requires NewestFirst(qs)
    ensures NewestFirst(ApplyFilters(qs, p))
  {
    ApplyFiltersIsConjunction(qs, p);
    FilterPairwise(qs, (x: Question) => Matches(x, p), (a: Question, b: Question) => a.createdAt > b.createdAt);
  }

  /** The public list holds exactly the matching questions that are not canceled, newest first. */
  lemma QuestionListSpec(all: seq<Question>, p: Params)
    requires CreationOrdered(all)
    ensures NewestFirst(QuestionList(all, p))
    ensures forall x :: x in QuestionList(all, p) <==> x in all && !x.canceled && Matches(x, p)
  {
    var open := Filter(all, (x: Question) => !x.canceled);
    FilterPairwise(all, (x: Question) => !x.canceled, (a: Question, b: Question) => a.createdAt < b.createdAt);
    FilteredNewestFirst(ByNewest(open), p);
    ApplyFiltersIsConjunction(ByNewest(open), p);
    forall x ensures x in open <==> x in all && !x.canceled {
      FilterMembership(all, (x: Question) => !x.canceled, x);
    }
  }

  /** "My questions" holds exactly the user's matching questions, canceled ones too, newest first. */
  lemma MyQuestionsSpec(all: seq<Question>, user: UserId, p: Params)
    requires CreationOrdered(all)
    ensures NewestFirst(MyQuestions(all, user, p))
    ensures forall x :: x in MyQuestions(all, user, p) <==> x in all && x.author == user && Matches(x, p)
  {
    var mine := Filter(all, (x: Question) => x.author == user);
    FilterPairwise(all, (x: Question) => x.author == user, (a: Question, b: Question) => a.createdAt < b.createdAt);
    FilteredNewestFirst(ByNewest(mine), p);
    ApplyFiltersIsConjunction(ByNewest(mine), p);
    forall x ensures x in mine <==> x in all && x.author == user {
      FilterMembership(all, (x: Question) => x.author == user, x);
    }
  }

  /** A status parameter other than `open` or `answered` is ignored: the result is as if none were given. */
  lemma UnknownStatusIgnored(qs: seq<Question>, p: Params)
    requires p.status != "open" && p.status != "answered"
    ensures ApplyFilters(qs, p) == ApplyFilters(qs, p.(status := ""))
  {
  }

  // ---------------------------------------------------------------------
  // Responses

  /** The templates a handler can render. */
  datatype Page = QuestionFormPage | QuestionDetailPage

  /** Where a redirect sends the browser. */
  datatype Target = ToQuestionList | ToQuestionDetail(pk: nat)

  datatype Response = Redirect(target: Target) | Render(page: Page, code: nat) | NotFound

  /** Only the author may cancel a question. */
  predicate MayCancel(q: Question, user: UserId)
  {
    q.author == user
  }

  /**
    The template's `is_owner` test, which decides whether the cancel button
    is shown, agrees with the check `question_cancel` makes for a signed-in
    user; an object without an author, no user and an anonymous user are
    never owners.
   */
  lemma IsOwnerDecidesCancel(q: Question, user: UserId, other: Option<CoreExtras.Viewer>)
    ensures CoreExtras.IsOwner(Some(q.author), Some(CoreExtras.Viewer(Some(user)))) <==> MayCancel(q, user)
    ensures !CoreExtras.IsOwner(None, other)
    ensures !CoreExtras.IsOwner(Some(q.author), None) && !CoreExtras.IsOwner(Some(q.author), Some(CoreExtras.Viewer(None)))
  {
  }

  /** Attachments created from `files`, one each, numbered from `firstId` and linked to one parent. */
  function NewAttachments(files: seq<Upload>, firstId: nat, question: Option<nat>, answer: Option<nat>): (r: seq<Attachment>)
    ensures |r| == |files|
    ensures forall k :: 0 <= k < |files| ==>
              r[k] == Attachment(firstId + k, Some(files[k]), question, answer)
    decreases |files|
  {
    if files == [] then []
    else NewAttachments(files[..|files| - 1], firstId, question, answer)
         + [Attachment(firstId + |files| - 1, Some(files[|files| - 1]), question, answer)]
  }

  /** One more file adds one more attachment, with the next key, at the end. */
  lemma NewAttachmentsSnoc(files: seq<Upload>, i: nat, firstId: nat, question: Option<nat>, answer: Option<nat>)
    requires i < |files|
    ensures NewAttachments(files[..i + 1], firstId, question, answer)
            == NewAttachments(files[..i], firstId, question, answer) + [Attachment(firstId + i, Some(files[i]), question, answer)]
  {
    assert files[..i + 1][..i] == files[..i] && files[..i + 1][i] == files[i];
  }

  /** Position of the row whose key is `k`, if any: the lookup of `get_object_or_404`. */
  function FindBy<T>(xs: seq<T>, key: T -> nat, k: nat): (r: Option<nat>)
    ensures r.Some? ==> r.value < |xs| && key(xs[r.value]) == k
    ensures r.None? ==> forall i :: 0 <= i < |xs| ==> key(xs[i]) != k
    decreases |xs|
  {
    if xs == [] then None
    else if key(xs[|xs| - 1]) == k then Some(|xs| - 1)
    else FindBy(xs[..|xs| - 1], key, k)
  }

  function QuestionKey(q: Question): nat { q.id }
  function AnswerKey(a: Answer): nat { a.id }

  /** Position of the question with key `pk`, if any. */
  function FindQuestion(qs: seq<Question>, pk: nat): Option<nat>
  {
    FindBy(qs, QuestionKey, pk)
  }

  /** Position of the answer with key `pk`, if any. */
  function FindAnswer(ans: seq<Answer>, pk: nat): Option<nat>
  {
    FindBy(ans, AnswerKey, pk)
  }

  /** `question_detail`: the question's page, or not found for an unknown key. */
  function QuestionDetail(qs: seq<Question>, pk: nat): (r: Response)
    ensures r == NotFound <==> pk !in QuestionIds(qs)
    ensures r != NotFound ==> r == Render(QuestionDetailPage, 200)
  {
    match FindQuestion(qs, pk)
    case None => NotFound
    case Some(i) =>
      assert qs[i] in qs;
      Render(QuestionDetailPage, 200)
  }

  /** Lookup by key depends on the keys alone. */
  lemma {:induction false} FindByKeys<T>(xs: seq<T>, ys: seq<T>, key: T -> nat, k: nat)
    requires |xs| == |ys|
    requires forall i :: 0 <= i < |xs| ==> key(ys[i]) == key(xs[i])
    ensures FindBy(ys, key, k) == FindBy(xs, key, k)
    decreases |xs|
  {
    if xs != [] {
      FindByKeys(xs[..|xs| - 1], ys[..|ys| - 1], key, k);
    }
  }

  /** The questions after `question_cancel` by `user` on key `pk`. */
  function AfterCancel(qs: seq<Question>, user: UserId, pk: nat): seq<Question>
  {
    match FindQuestion(qs, pk)
    case None => qs
    case Some(i) => if MayCancel(qs[i], user) then qs[i := qs[i].(canceled := true)] else qs
  }

  /**
    Cancelling touches at most the one question with key `pk`, and only
    when `user` wrote it, setting its flag and nothing else; doing it a
    second time changes nothing more.
   */
  lemma CancelSpec(qs: seq<Question>, user: UserId, pk: nat)
    ensures |AfterCancel(qs, user, pk)| == |qs|
    ensures forall k :: 0 <= k < |qs| && AfterCancel(qs, user, pk)[k] != qs[k] ==>
              qs[k].id == pk && qs[k].author == user && AfterCancel(qs, user, pk)[k] == qs[k].(canceled := true)
    ensures FindQuestion(qs, pk).Some? && qs[FindQuestion(qs, pk).value].author == user ==>
              AfterCancel(qs, user, pk)[FindQuestion(qs, pk).value].canceled
    ensures AfterCancel(AfterCancel(qs, user, pk), user, pk) == AfterCancel(qs, user, pk)
  {
    var r := AfterCancel(qs, user, pk);
    FindByKeys(qs, r, QuestionKey, pk);
  }

  /**
    How a question may change between two states of the store: no row
    disappears or is rekeyed, author, subject, title, body and creation
    time stay, `canceled` only goes from false to true and `status` only
    from open to answered.
   */
  ghost predicate QuestionsEvolve(before: seq<Question>, after: seq<Question>)
  {
    && |before| <= |after|
    && forall i :: 0 <= i < |before| ==>
         && after[i] == before[i].(status := after[i].status, canceled := after[i].canceled)
         && (before[i].canceled ==> after[i].canceled)
         && (before[i].status == Answered ==> after[i].status == Answered)
  }

  /** Marking one question answered, or cancelling it, is a change the one-way rules allow. */
  lemma FlagChangeEvolves(qs: seq<Question>, i: nat)
    requires i < |qs|
    ensures QuestionsEvolve(qs, qs[i := qs[i].(status := Answered)])
    ensures QuestionsEvolve(qs, qs[i := qs[i].(canceled := true)])
  {
  }

  /** Any run of handlers keeps the one-way rules: the relation composes. */
  lemma QuestionsEvolveTransitive(a: seq<Question>, b: seq<Question>, c: seq<Question>)
    requires QuestionsEvolve(a, b) && QuestionsEvolve(b, c)
    ensures QuestionsEvolve(a, c)
  {
    forall i | 0 <= i < |a|
      ensures c[i] == a[i].(status := c[i].status, canceled := c[i].canceled)
    {
      assert b[i] == a[i].(status := b[i].status, canceled := b[i].canceled);
    }
  }

  // ---------------------------------------------------------------------
  // The store's invariant and how each write keeps it

  /** Questions that have at least one answer. */
  function AnsweredIds(ans: seq<Answer>): set<nat>
  {
    set a | a in ans :: a.question
  }

  /** `answer_count` of the list view: how many answers the question has. */
  function AnswerCount(ans: seq<Answer>, qid: nat): nat
  {
    |Filter(ans, (a: Answer) => a.question == qid)|
  }

  /** Every key is below the counter and every stamp below the clock. */
  ghost predicate Stamped(t: Tables, nextId: nat, clock: nat)
  {
    && (forall q :: q in t.questions ==> q.id < nextId && q.createdAt < clock)
    && (forall a :: a in t.answers ==> a.id < nextId && a.createdAt < clock)
    && (forall r :: r in t.replies ==> r.id < nextId && r.createdAt < clock)
    && (forall x :: x in t.attachments ==> x.id < nextId)
  }

  /** A question is answered exactly when it has at least one answer. */
  ghost predicate StatusTracksAnswers(t: Tables)
  {
    forall q :: q in t.questions ==> (q.status == Answered <==> q.id in AnsweredIds(t.answers))
  }

  /** Every attachment belongs to exactly one of a question and an answer. */
  ghost predicate OneParent(xs: seq<Attachment>)
  {
    forall x :: x in xs ==> x.question.Some? != x.answer.Some?
  }

  /**
    What holds of the tables between requests when only the handlers
    write: the schema's rules, keys and stamps handed out in order, status
    following the answers, and one parent per attachment.
   */
  ghost predicate StoreInvariant(t: Tables, nextId: nat, clock: nat)
  {
    && Consistent(t)
    && Stamped(t, nextId, clock)
    && CreationOrdered(t.questions)
    && StatusTracksAnswers(t)
    && OneParent(t.attachments)
  }

  /** Replacing one question by another with the same key and stamp keeps the keys and the creation order. */
  lemma UpdateKeepsKeys(qs: seq<Question>, i: nat, q: Question)
    requires i < |qs| && q.id == qs[i].id && q.createdAt == qs[i].createdAt
    requires Pairwise(qs, (a: Question, b: Question) => a.id != b.id) && CreationOrdered(qs)
    ensures QuestionIds(qs[i := q]) == QuestionIds(qs)
    ensures Pairwise(qs[i := q], (a: Question, b: Question) => a.id != b.id)
    ensures CreationOrdered(qs[i := q])
  {
    var qs2 := qs[i := q];
    forall id | id in QuestionIds(qs) ensures id in QuestionIds(qs2) {
      var x :| x in qs && x.id == id;
      var k :| 0 <= k < |qs| && qs[k] == x;
      assert qs2[k].id == id;
    }
    forall id | id in QuestionIds(qs2) ensures id in QuestionIds(qs) {
      var x :| x in qs2 && x.id == id;
      var k :| 0 <= k < |qs2| && qs2[k] == x;
      assert qs[k].id == id;
    }
    forall j, k | 0 <= j < k < |qs2|
      ensures qs2[j].id != qs2[k].id && qs2[j].createdAt < qs2[k].createdAt
    {
      assert qs2[j].id == qs[j].id && qs2[k].id == qs[k].id;
      assert qs2[j].createdAt == qs[j].createdAt && qs2[k].createdAt == qs[k].createdAt;
    }
  }

  /** The question at position `i` of a store in its invariant has a key no other question has. */
  lemma KeyAt(qs: seq<Question>, i: nat, x: Question)
    requires Pairwise(qs, (a: Question, b: Question) => a.id != b.id)
    requires i < |qs| && x in qs && x != qs[i]
    ensures x.id != qs[i].id
  {
    var k :| 0 <= k < |qs| && qs[k] == x;
    assert k != i;
  }

  /**
    `question_cancel` on the author's question keeps the invariant: only
    the flag changes.
   */
  lemma CancelKeeps(t: Tables, nextId: nat, clock: nat, i: nat)
    requires StoreInvariant(t, nextId, clock) && i < |t.questions|
    ensures StoreInvariant(t.(questions := t.questions[i := t.questions[i].(canceled := true)]), nextId, clock)
  {
    var qs := t.questions;
    var q := qs[i].(canceled := true);
    UpdateKeepsKeys(qs, i, q);
    forall x | x in qs[i := q]
      ensures |x.title| <= TitleMax && (x.subject.Some? ==> x.subject.value in SubjectIds(t.subjects))
      ensures x.id < nextId && x.createdAt < clock
      ensures x.status == Answered <==> x.id in AnsweredIds(t.answers)
    {
      var k :| 0 <= k < |qs| && qs[i := q][k] == x;
      assert qs[k] in qs;
    }
  }

  /**
    Saving a new open question with the next key and stamp keeps the
    invariant; the new key is one of the question keys afterwards.
   */
  lemma InsertQuestionKeeps(t: Tables, nextId: nat, clock: nat, q: Question)
    requires StoreInvariant(t, nextId, clock)
    requires q.id == nextId && q.createdAt == clock && q.status == Open
    requires |q.title| <= TitleMax
    requires q.subject.Some? ==> q.subject.value in SubjectIds(t.subjects)
    ensures StoreInvariant(t.(questions := t.questions + [q]), nextId + 1, clock + 1)
    ensures QuestionIds(t.questions + [q]) == QuestionIds(t.questions) + {q.id}
  {
    var qs := t.questions;
    var qs2 := qs + [q];
    forall id | id in QuestionIds(qs2) ensures id in QuestionIds(qs) + {q.id} {
      var x :| x in qs2 && x.id == id;
      if x != q { assert x in qs; }
    }
    forall id | id in QuestionIds(qs) ensures id in QuestionIds(qs2) {
      var x :| x in qs && x.id == id;
      assert x in qs2;
    }
    forall a | a in t.answers ensures a.question != q.id {
      var x :| x in qs && x.id == a.question;
    }
    forall j, k | 0 <= j < k < |qs2|
      ensures qs2[j].id != qs2[k].id && qs2[j].createdAt < qs2[k].createdAt
    {
      if k == |qs| {
        assert qs2[j] in qs;
      } else {
        assert qs2[j] == qs[j] && qs2[k] == qs[k];
      }
    }
  }

  /** Appending an answer adds exactly its question to the answered ones and its key to the answer keys. */
  lemma AnswerAppendSets(ans: seq<Answer>, a: Answer)
    ensures AnsweredIds(ans + [a]) == AnsweredIds(ans) + {a.question}
    ensures AnswerIds(ans + [a]) == AnswerIds(ans) + {a.id}
  {
    var ans2 := ans + [a];
    forall id | id in AnsweredIds(ans2) ensures id in AnsweredIds(ans) + {a.question} {
      var b :| b in ans2 && b.question == id;
      if b != a { assert b in ans; }
    }
    forall id | id in AnsweredIds(ans) ensures id in AnsweredIds(ans2) {
      var b :| b in ans && b.question == id;
      assert b in ans2;
    }
    forall id | id in AnswerIds(ans2) ensures id in AnswerIds(ans) + {a.id} {
      var b :| b in ans2 && b.id == id;
      if b != a { assert b in ans; }
    }
    forall id | id in AnswerIds(ans) ensures id in AnswerIds(ans2) {
      var b :| b in ans && b.id == id;
      assert b in ans2;
    }
  }

  /** Appending an answer whose key is above every existing key keeps the keys distinct. */
  lemma AnswerAppendKeys(ans: seq<Answer>, a: Answer)
    requires Pairwise(ans, (x: Answer, y: Answer) => x.id != y.id)
    requires forall b :: b in ans ==> b.id < a.id
    ensures Pairwise(ans + [a], (x: Answer, y: Answer) => x.id != y.id)
  {
    var ans2 := ans + [a];
    forall j, k | 0 <= j < k < |ans2| ensures ans2[j].id != ans2[k].id {
      if k == |ans| {
        assert ans2[j] in ans;
      } else {
        assert ans2[j] == ans[j] && ans2[k] == ans[k];
      }
    }
  }

  /**
    After marking the question at position `i` answered, the rows' fields
    other than status are as before, and a question is answered exactly
    when it was, or it is the one at `i`.
   */
  lemma MarkAnsweredRows(t: Tables, nextId: nat, clock: nat, i: nat)
    requires StoreInvariant(t, nextId, clock) && i < |t.questions|
    ensures var qs2 := t.questions[i := t.questions[i].(status := Answered)];
            forall x :: x in qs2 ==>
              && |x.title| <= TitleMax && (x.subject.Some? ==> x.subject.value in SubjectIds(t.subjects))
              && x.id < nextId && x.createdAt < clock
              && (x.status == Answered <==> x.id in AnsweredIds(t.answers) || x.id == t.questions[i].id)
  {
    var qs := t.questions;
    var qs2 := qs[i := qs[i].(status := Answered)];
    forall x | x in qs2
      ensures |x.title| <= TitleMax && (x.subject.Some? ==> x.subject.value in SubjectIds(t.subjects))
      ensures x.id < nextId && x.createdAt < clock
      ensures x.status == Answered <==> x.id in AnsweredIds(t.answers) || x.id == qs[i].id
    {
      var k :| 0 <= k < |qs2| && qs2[k] == x;
      assert qs[k] in qs;
      if k != i {
        KeyAt(qs, i, qs[k]);
      }
    }
  }

  /**
    Saving a new answer to the question at position `i`, with the next
    key and stamp, and marking that question answered keeps the
    invariant; the new key is one of the answer keys afterwards.
   */
  lemma InsertAnswerKeeps(t: Tables, nextId: nat, clock: nat, i: nat, a: Answer)
    requires StoreInvariant(t, nextId, clock)
    requires i < |t.questions| && a.question == t.questions[i].id
    requires a.id == nextId && a.createdAt == clock
    ensures StoreInvariant(
              t.(questions := t.questions[i := t.questions[i].(status := Answered)], answers := t.answers + [a]),
              nextId + 1, clock + 1)
    ensures AnswerIds(t.answers + [a]) == AnswerIds(t.answers) + {a.id}
  {
    var qs := t.questions;
    UpdateKeepsKeys(qs, i, qs[i].(status := Answered));
    AnswerAppendSets(t.answers, a);
    AnswerAppendKeys(t.answers, a);
    MarkAnsweredRows(t, nextId, clock, i);
    assert qs[i] in qs;
  }

  /** Saving a new reply to an existing answer, with the next key and stamp, keeps the invariant. */
  lemma InsertReplyKeeps(t: Tables, nextId: nat, clock: nat, r: Reply)
    requires StoreInvariant(t, nextId, clock)
    requires r.answer in AnswerIds(t.answers)
    requires r.id == nextId && r.createdAt == clock
    ensures StoreInvariant(t.(replies := t.replies + [r]), nextId + 1, clock + 1)
  {
    var rs := t.replies + [r];
    forall j, k | 0 <= j < k < |rs| ensures rs[j].id != rs[k].id {
      if k == |t.replies| {
        assert rs[j] in t.replies;
      } else {
        assert rs[j] == t.replies[j] && rs[k] == t.replies[k];
      }
    }
  }

  /** Saving a new attachment with the next key and exactly one existing parent keeps the invariant. */
  lemma InsertAttachmentKeeps(t: Tables, nextId: nat, clock: nat, x: Attachment)
    requires StoreInvariant(t, nextId, clock)
    requires x.id == nextId
    requires x.question.Some? != x.answer.Some?
    requires x.question.Some? ==> x.question.value in QuestionIds(t.questions)
    requires x.answer.Some? ==> x.answer.value in AnswerIds(t.answers)
    ensures StoreInvariant(t.(attachments := t.attachments + [x]), nextId + 1, clock)
  {
    var xs := t.attachments + [x];
    forall j, k | 0 <= j < k < |xs| ensures xs[j].id != xs[k].id {
      if k == |t.attachments| {
        assert xs[j] in t.attachments;
      } else {
        assert xs[j] == t.attachments[j] && xs[k] == t.attachments[k];
      }
    }
  }

  /**
    Saving one attachment per file, with consecutive keys from the
    counter and all linked to one existing parent, keeps the invariant.
   */
  lemma {:induction false} InsertAttachmentsKeeps(t: Tables, nextId: nat, clock: nat, files: seq<Upload>,
                                                  question: Option<nat>, answer: Option<nat>)
    requires StoreInvariant(t, nextId, clock)
    requires question.Some? != answer.Some?
    requires question.Some? ==> question.value in QuestionIds(t.questions)
    requires answer.Some? ==> answer.value in AnswerIds(t.answers)
    ensures StoreInvariant(t.(attachments := t.attachments + NewAttachments(files, nextId, question, answer)),
                           nextId + |files|, clock)
    decreases |files|
  {
    if files == [] {
      assert t.attachments + [] == t.attachments;
    } else {
      var init := files[..|files| - 1];
      InsertAttachmentsKeeps(t, nextId, clock, init, question, answer);
      var t1 := t.(attachments := t.attachments + NewAttachments(init, nextId, question, answer));
      var x := Attachment(nextId + |init|, Some(files[|files| - 1]), question, answer);
      InsertAttachmentKeeps(t1, nextId + |init|, clock, x);
      assert t1.attachments + [x] == t.attachments + NewAttachments(files, nextId, question, answer);
    }
  }

  /** Under the invariant a question is answered exactly when its answer count is positive. */
  lemma AnsweredIffCounted(t: Tables, nextId: nat, clock: nat, q: Question)
    requires StoreInvariant(t, nextId, clock) && q in t.questions
    ensures q.status == Answered <==> AnswerCount(t.answers, q.id) > 0
  {
    var p := (a: Answer) => a.question == q.id;
    var f := Filter(t.answers, p);
    if q.id in AnsweredIds(t.answers) {
      var a :| a in t.answers && a.question == q.id;
      FilterMembership(t.answers, p, a);
    }
    if |f| > 0 {
      FilterMembership(t.answers, p, f[0]);
      assert f[0] in t.answers;
    }
  }

  /**
    The tables after a successful `question_create`: the question
    appended and one attachment per image linked to it.
   */
  function QuestionAdded(t: Tables, q: Question, images: seq<Upload>): Tables
  {
    t.(questions := t.questions + [q],
       attachments := t.attachments + NewAttachments(images, q.id + 1, Some(q.id), None))
  }

  /**
    The tables after a successful `answer_create` on the question at
    position `i`: the answer appended, one attachment per image linked to
    it, and the question marked answered.
   */
  function AnswerAdded(t: Tables, i: nat, a: Answer, images: seq<Upload>): Tables
    requires i < |t.questions|
  {
    t.(questions := t.questions[i := t.questions[i].(status := Answered)],
       answers := t.answers + [a],
       attachments := t.attachments + NewAttachments(images, a.id + 1, None, Some(a.id)))
  }

  /**
    A successful `question_create` as a whole keeps the invariant: the
    question takes the next key and stamp, its images the keys after it.
   */
  lemma QuestionAddedKeeps(t: Tables, nextId: nat, clock: nat, q: Question, images: seq<Upload>)
    requires StoreInvariant(t, nextId, clock)
    requires q.id == nextId && q.createdAt == clock && q.status == Open
    requires |q.title| <= TitleMax
    requires q.subject.Some? ==> q.subject.value in SubjectIds(t.subjects)
    ensures StoreInvariant(QuestionAdded(t, q, images), nextId + 1 + |images|, clock + 1)
  {
    InsertQuestionKeeps(t, nextId, clock, q);
    var t1 := t.(questions := t.questions + [q]);
    InsertAttachmentsKeeps(t1, nextId + 1, clock + 1, images, Some(q.id), None);
  }

  /**
    A successful `answer_create` as a whole keeps the invariant: the
    answer takes the next key and stamp, its images the keys after it,
    and its question becomes answered.
   */
  lemma AnswerAddedKeeps(t: Tables, nextId: nat, clock: nat, i: nat, a: Answer, images: seq<Upload>)
    requires StoreInvariant(t, nextId, clock)
    requires i < |t.questions| && a.question == t.questions[i].id
    requires a.id == nextId && a.createdAt == clock
    ensures StoreInvariant(AnswerAdded(t, i, a, images), nextId + 1 + |images|, clock + 1)
  {
    InsertAnswerKeeps(t, nextId, clock, i, a);
    var t1 := t.(questions := t.questions[i := t.questions[i].(status := Answered)], answers := t.answers + [a]);
    InsertAttachmentsKeeps(t1, nextId + 1, clock + 1, images, None, Some(a.id));
  }

  /** The attachments linked to question `qid`. */
  function QuestionAttachments(xs: seq<Attachment>, qid: nat): seq<Attachment>
  {
    Filter(xs, (x: Attachment) => x.question == Some(qid))
  }

  /** The attachments linked to answer `aid`. */
  function AnswerAttachments(xs: seq<Attachment>, aid: nat): seq<Attachment>
  {
    Filter(xs, (x: Attachment) => x.answer == Some(aid))
  }

  /** Under the invariant no attachment links to the next key yet. */
  lemma NextKeyUnlinked(t: Tables, nextId: nat, clock: nat)
    requires StoreInvariant(t, nextId, clock)
    ensures forall x :: x in t.attachments ==> x.question != Some(nextId) && x.answer != Some(nextId)
  {
    forall x | x in t.attachments ensures x.question != Some(nextId) && x.answer != Some(nextId) {
      if x.question.Some? {
        var y :| y in t.questions && y.id == x.question.value;
      }
      if x.answer.Some? {
        var y :| y in t.answers && y.id == x.answer.value;
      }
    }
  }

  /**
    After `question_create` the new question's attachments are exactly
    the ones made from its images, one per image and in order, provided
    none linked to its key before; every other question keeps its
    attachments.
   */
  lemma QuestionAddedAttachments(t: Tables, q: Question, images: seq<Upload>)
    requires forall x :: x in t.attachments ==> x.question != Some(q.id)
    ensures QuestionAttachments(QuestionAdded(t, q, images).attachments, q.id) == NewAttachments(images, q.id + 1, Some(q.id), None)
    ensures |QuestionAttachments(QuestionAdded(t, q, images).attachments, q.id)| == |images|
    ensures forall qid :: qid != q.id ==>
              QuestionAttachments(QuestionAdded(t, q, images).attachments, qid) == QuestionAttachments(t.attachments, qid)
  {
    var added := NewAttachments(images, q.id + 1, Some(q.id), None);
    assert QuestionAdded(t, q, images).attachments == t.attachments + added;
    var p := (x: Attachment) => x.question == Some(q.id);
    FilterAppend(t.attachments, added, p);
    FilterKeepsNone(t.attachments, p);
    FilterKeepsAll(added, p);
    forall qid | qid != q.id
      ensures QuestionAttachments(t.attachments + added, qid) == QuestionAttachments(t.attachments, qid)
    {
      var p' := (x: Attachment) => x.question == Some(qid);
      FilterAppend(t.attachments, added, p');
      FilterKeepsNone(added, p');
    }
  }

  /**
    After `answer_create` the new answer's attachments are exactly the
    ones made from its images, one per image and in order, provided none
    linked to its key before.
   */
  lemma AnswerAddedAttachments(t: Tables, i: nat, a: Answer, images: seq<Upload>)
    requires forall x :: x in t.attachments ==> x.answer != Some(a.id)
    requires i < |t.questions|
    ensures AnswerAttachments(AnswerAdded(t, i, a, images).attachments, a.id) == NewAttachments(images, a.id + 1, None, Some(a.id))
    ensures |AnswerAttachments(AnswerAdded(t, i, a, images).attachments, a.id)| == |images|
  {
    var added := NewAttachments(images, a.id + 1, None, Some(a.id));
    assert AnswerAdded(t, i, a, images).attachments == t.attachments + added;
    var p := (x: Attachment) => x.answer == Some(a.id);
    FilterAppend(t.attachments, added, p);
    FilterKeepsNone(t.attachments, p);
    FilterKeepsAll(added, p);
  }

  /**
    After `answer_create` on the question at position `i`, that question
    is answered, its answer count has grown by one, and every other
    question is as before.
   */
  lemma AnswerAddedCounts(t: Tables, i: nat, a: Answer, images: seq<Upload>)
    requires i < |t.questions| && a.question == t.questions[i].id
    ensures AnswerAdded(t, i, a, images).questions[i].status == Answered
    ensures AnswerCount(AnswerAdded(t, i, a, images).answers, a.question) == AnswerCount(t.answers, a.question) + 1
    ensures forall k :: 0 <= k < |t.questions| && k != i ==> AnswerAdded(t, i, a, images).questions[k] == t.questions[k]
  {
    var p := (b: Answer) => b.question == a.question;
    FilterAppend(t.answers, [a], p);
    assert Filter([a], p) == [a] + Filter([a][1..], p);
  }

  // ---------------------------------------------------------------------
  // The store

  class Store {
    var subjects: seq<Subject>
    var questions: seq<Question>
    var answers: seq<Answer>
    var replies: seq<Reply>
    var attachments: seq<Attachment>
    /** The next primary key handed out. */
    var nextId: nat
    /** The next `created_at` stamp. */
    var clock: nat

    function Db(): Tables
      reads this
    {
      Tables(subjects, questions, answers, replies, attachments)
    }

    ghost predicate Valid()
      reads this
    {
      StoreInvariant(Db(), nextId, clock)
    }

    /** An empty forum over subjects administered out of band. */
    constructor (subjects: seq<Subject>)
      requires SubjectsValid(subjects)
      ensures Valid()
      ensures this.subjects == subjects
      ensures questions == [] && answers == [] && replies == [] && attachments == []
    {
      this.subjects := subjects;
      questions, answers, replies, attachments := [], [], [], [];
      nextId, clock := 0, 0;
    }

    /**
      The attachment loop of the two create handlers: for each file in
      turn, `Attachment.objects.create` makes one row with the next key,
      linked to the one parent.
     */
    method AddAttachments(files: seq<Upload>, question: Option<nat>, answer: Option<nat>)
      modifies this
      ensures Db() == old(Db()).(attachments := old(attachments) + NewAttachments(files, old(nextId), question, answer))
      ensures nextId == old(nextId) + |files| && clock == old(clock)
    {
      var i := 0;
      while i < |files|
        invariant 0 <= i <= |files|
        invariant Db() == old(Db()).(attachments := old(attachments) + NewAttachments(files[..i], old(nextId), question, answer))
        invariant nextId == old(nextId) + i && clock == old(clock)
      {
        attachments := attachments + [Attachment(nextId, Some(files[i]), question, answer)];
        nextId := nextId + 1;
        NewAttachmentsSnoc(files, i, old(nextId), question, answer);
        i := i + 1;
      }
      assert files[..|files|] == files;
    }

    /** `q.save()` of a new question: appended with the next key and stamp. */
    method InsertQuestion(q: Question)
      requires q.id == nextId && q.createdAt == clock
      modifies this
      ensures questions == old(questions) + [q]
      ensures nextId == old(nextId) + 1 && clock == old(clock) + 1
      ensures subjects == old(subjects) && answers == old(answers)
      ensures replies == old(replies) && attachments == old(attachments)
      ensures QuestionsEvolve(old(questions), questions)
    {
      questions := questions + [q];
      nextId := nextId + 1;
      clock := clock + 1;
    }

    /**
      `ans.save()` followed by the status update: the answer is appended
      with the next key and stamp, and the question at position `i`, which
      it answers, becomes answered if it was not already.
     */
    method InsertAnswer(a: Answer, i: nat)
      requires i < |questions| && a.question == questions[i].id
      requires a.id == nextId && a.createdAt == clock
      modifies this
      ensures answers == old(answers) + [a]
      ensures questions == old(questions)[i := old(questions)[i].(status := Answered)]
      ensures nextId == old(nextId) + 1 && clock == old(clock) + 1
      ensures subjects == old(subjects) && replies == old(replies) && attachments == old(attachments)
      ensures QuestionsEvolve(old(questions), questions)
    {
      FlagChangeEvolves(questions, i);
      answers := answers + [a];
      questions := questions[i := questions[i].(status := Answered)];
      nextId := nextId + 1;
      clock := clock + 1;
    }

    /**
      `question_create`. A GET or an invalid submission renders the form
      again and stores nothing. A valid submission stores one question,
      owned by the caller, open and not canceled, then one attachment per
      image linked to it, and redirects to the new question.
     */
    method QuestionCreate(user: UserId, isPost: bool, data: QuestionData) returns (resp: Response)
      requires Valid()
      modifies this
      ensures Valid()
      ensures QuestionsEvolve(old(questions), questions)
      ensures subjects == old(subjects) && answers == old(answers) && replies == old(replies)
      ensures !isPost || CleanQuestionForm(data, SubjectIds(old(subjects))).Err? ==>
                && resp == Render(QuestionFormPage, 200)
                && questions == old(questions) && attachments == old(attachments)
                && nextId == old(nextId) && clock == old(clock)
      ensures isPost && CleanQuestionForm(data, SubjectIds(old(subjects))).Ok? ==>
                var f := CleanQuestionForm(data, SubjectIds(old(subjects))).value;
                var q := NewQuestion(old(nextId), user, f.subject, f.title, f.body, old(clock));
                && resp == Redirect(ToQuestionDetail(q.id))
                && Db() == QuestionAdded(old(Db()), q, f.images)
                && nextId == old(nextId) + 1 + |f.images| && clock == old(clock) + 1
    {
      if !isPost {
        return Render(QuestionFormPage, 200);
      }
      var cleaned := CleanQuestionForm(data, SubjectIds(subjects));
      if cleaned.Err? {
        return Render(QuestionFormPage, 200);
      }
      var f := cleaned.value;
      CleanQuestionFormValid(data, SubjectIds(subjects));
      var q := NewQuestion(nextId, user, f.subject, f.title, f.body, clock);
      SaveQuestion(q, f.images);
      resp := Redirect(ToQuestionDetail(q.id));
    }

    /** The writes of a successful `question_create`: the question under the next key, then its attachments. */
    method AppendQuestion(q: Question, images: seq<Upload>)
      requires q.id == nextId && q.createdAt == clock
      modifies this
      ensures Db() == QuestionAdded(old(Db()), q, images)
      ensures nextId == old(nextId) + 1 + |images| && clock == old(clock) + 1
      ensures QuestionsEvolve(old(questions), questions)
    {
      ghost var t0 := Db();
      InsertQuestion(q);
      assert Db() == t0.(questions := t0.questions + [q]);
      AddAttachments(images, Some(q.id), None);
    }

    /** The success path of `question_create`, which keeps the store's invariant. */
    method SaveQuestion(q: Question, images: seq<Upload>)
      requires Valid()
      requires q.id == nextId && q.createdAt == clock && q.status == Open
      requires |q.title| <= TitleMax
      requires q.subject.Some? ==> q.subject.value in SubjectIds(subjects)
      modifies this
      ensures Db() == QuestionAdded(old(Db()), q, images)
      ensures nextId == old(nextId) + 1 + |images| && clock == old(clock) + 1
      ensures Valid()
      ensures QuestionsEvolve(old(questions), questions)
    {
      QuestionAddedKeeps(Db(), nextId, clock, q, images);
      AppendQuestion(q, images);
    }

    /**
      `question_cancel`. An unknown key is not found. A caller other than
      the author changes nothing and goes back to the question. The author
      sets `canceled` (whatever its current value and status) and goes to
      the list; nothing else changes.
     */
    method QuestionCancel(user: UserId, pk: nat) returns (resp: Response)
      requires Valid()
      modifies this
      ensures Valid()
      ensures QuestionsEvolve(old(questions), questions)
      ensures subjects == old(subjects) && answers == old(answers) && replies == old(replies)
      ensures attachments == old(attachments) && nextId == old(nextId) && clock == old(clock)
      ensures questions == AfterCancel(old(questions), user, pk)
      ensures FindQuestion(old(questions), pk).None? ==> resp == NotFound && questions == old(questions)
      ensures FindQuestion(old(questions), pk).Some? ==>
                var i := FindQuestion(old(questions), pk).value;
                if MayCancel(old(questions)[i], user) then
                  resp == Redirect(ToQuestionList) && questions == old(questions)[i := old(questions)[i].(canceled := true)]
                else
                  resp == Redirect(ToQuestionDetail(pk)) && questions == old(questions)
    {
      var found := FindQuestion(questions, pk);
      if found.None? {
        return NotFound;
      }
      var i := found.value;
      if !MayCancel(questions[i], user) {
        return Redirect(ToQuestionDetail(pk));
      }
      CancelKeeps(Db(), nextId, clock, i);
      FlagChangeEvolves(questions, i);
      questions := questions[i := questions[i].(canceled := true)];
      resp := Redirect(ToQuestionList);
    }

    /**
      `answer_create`. An unknown key is not found. A canceled question
      gets no answer: nothing changes and the caller goes back to it. An
      invalid form answers 400 and stores nothing. Otherwise one answer by
      the caller is stored under the question, then one attachment per
      image linked to that answer, and the question becomes answered; no
      other field of it changes.
     */
    method AnswerCreate(user: UserId, pk: nat, data: AnswerData) returns (resp: Response)
      requires Valid()
      modifies this
      ensures Valid()
      ensures QuestionsEvolve(old(questions), questions)
      ensures subjects == old(subjects) && replies == old(replies)
      ensures FindQuestion(old(questions), pk).None? ==>
                && resp == NotFound
                && questions == old(questions) && answers == old(answers) && attachments == old(attachments)
                && nextId == old(nextId) && clock == old(clock)
      ensures FindQuestion(old(questions), pk).Some? && old(questions)[FindQuestion(old(questions), pk).value].canceled ==>
                && resp == Redirect(ToQuestionDetail(pk))
                && questions == old(questions) && answers == old(answers) && attachments == old(attachments)
                && nextId == old(nextId) && clock == old(clock)
      ensures FindQuestion(old(questions), pk).Some? && !old(questions)[FindQuestion(old(questions), pk).value].canceled
              && CleanAnswerForm(data).Err? ==>
                && resp == Render(QuestionDetailPage, 400)
                && questions == old(questions) && answers == old(answers) && attachments == old(attachments)
                && nextId == old(nextId) && clock == old(clock)
      ensures FindQuestion(old(questions), pk).Some? && !old(questions)[FindQuestion(old(questions), pk).value].canceled
              && CleanAnswerForm(data).Ok? ==>
                var f := CleanAnswerForm(data).value;
                && resp == Redirect(ToQuestionDetail(pk))
                && Db() == AnswerAdded(old(Db()), FindQuestion(old(questions), pk).value,
                                       Answer(old(nextId), pk, user, f.body, old(clock)), f.images)
                && nextId == old(nextId) + 1 + |f.images| && clock == old(clock) + 1
    {
      var found := FindQuestion(questions, pk);
      if found.None? {
        return NotFound;
      }
      var i := found.value;
      if questions[i].canceled {
        return Redirect(ToQuestionDetail(pk));
      }
      var cleaned := CleanAnswerForm(data);
      if cleaned.Err? {
        return Render(QuestionDetailPage, 400);
      }
      SaveAnswer(user, i, cleaned.value);
      resp := Redirect(ToQuestionDetail(pk));
    }

    /**
      The success path of `answer_create`: the answer to the question at
      position `i`, its attachments, and the status update.
     */
    method SaveAnswer(user: UserId, i: nat, f: AnswerFields)
      requires Valid() && i < |questions|
      modifies this
      ensures Db() == AnswerAdded(old(Db()), i, Answer(old(nextId), old(questions)[i].id, user, f.body, old(clock)), f.images)
      ensures nextId == old(nextId) + 1 + |f.images| && clock == old(clock) + 1
      ensures Valid()
      ensures QuestionsEvolve(old(questions), questions)
    {
      var a := Answer(nextId, questions[i].id, user, f.body, clock);
      AnswerAddedKeeps(Db(), nextId, clock, i, a, f.images);
      AppendAnswer(a, i, f.images);
    }

    /** The writes of a successful `answer_create`: the answer under the next key, the status update, then its attachments. */
    method AppendAnswer(a: Answer, i: nat, images: seq<Upload>)
      requires i < |questions| && a.question == questions[i].id
      requires a.id == nextId && a.createdAt == clock
      modifies this
      ensures Db() == AnswerAdded(old(Db()), i, a, images)
      ensures nextId == old(nextId) + 1 + |images| && clock == old(clock) + 1
      ensures QuestionsEvolve(old(questions), questions)
    {
      ghost var t0 := Db();
      InsertAnswer(a, i);
      assert Db() == t0.(questions := t0.questions[i := t0.questions[i].(status := Answered)], answers := t0.answers + [a]);
      AddAttachments(images, None, Some(a.id));
    }

    /**
      `reply_create`. An unknown answer is not found. A valid POST stores
      one reply by the caller under the answer; a GET or an invalid form
      stores nothing. Every outcome redirects to the answer's question.
     */
    method ReplyCreate(user: UserId, answerId: nat, isPost: bool, data: ReplyData) returns (resp: Response)
      requires Valid()
      modifies this
      ensures Valid()
      ensures subjects == old(subjects) && questions == old(questions)
      ensures answers == old(answers) && attachments == old(attachments)
      ensures FindAnswer(old(answers), answerId).None? ==>
                resp == NotFound && replies == old(replies) && nextId == old(nextId) && clock == old(clock)
      ensures FindAnswer(old(answers), answerId).Some? ==>
                var a := old(answers)[FindAnswer(old(answers), answerId).value];
                && resp == Redirect(ToQuestionDetail(a.question))
                && (isPost && CleanReplyForm(data).Ok? ==>
                      && replies == old(replies) + [Reply(old(nextId), answerId, user, CleanReplyForm(data).value, old(clock))]
                      && nextId == old(nextId) + 1 && clock == old(clock) + 1)
                && (!(isPost && CleanReplyForm(data).Ok?) ==> replies == old(replies) && nextId == old(nextId) && clock == old(clock))
    {
      var found := FindAnswer(answers, answerId);
      if found.None? {
        return NotFound;
      }
      var a := answers[found.value];
      var cleaned := CleanReplyForm(data);
      if isPost && cleaned.Ok? {
        assert answerId in AnswerIds(answers) by { assert a in answers; }
        SaveReply(Reply(nextId, answerId, user, cleaned.value, clock));
      }
      resp := Redirect(ToQuestionDetail(a.question));
    }

    /** The success path of `reply_create`: `rep.save()` with the next key and stamp. */
    method SaveReply(r: Reply)
      requires Valid()
      requires r.answer in AnswerIds(answers)
      requires r.id == nextId && r.createdAt == clock
      modifies this
      ensures Db() == old(Db()).(replies := old(replies) + [r])
      ensures nextId == old(nextId) + 1 && clock == old(clock) + 1
      ensures Valid()
    {
      ghost var t0 := Db();
      InsertReplyKeeps(t0, nextId, clock, r);
      replies := replies + [r];
      nextId := nextId + 1;
      clock := clock + 1;
      assert Db() == t0.(replies := t0.replies + [r]);
    }
  }
}
