/**
  The forum's records (core/models.py): subjects, questions with their
  two-valued status and cancel flag, answers, replies and image attachments,
  the field bounds and key rules of the schema, and what the foreign-key
  rules do when a subject, a question or an answer is deleted.

  Rows are values; a table is a sequence of rows; `Tables` is the whole
  database. Users belong to the identity provider and appear only as ids.
 */
module Models {
  import opened Wrappers
  import opened Seqs

  type UserId = nat

  /** `Subject.name` is at most this long. */
  const SubjectNameMax: nat := 100
  /** `Question.title` is at most this long. */
  const TitleMax: nat := 200

  /** The stored value of `Question.status`: exactly two choices. */
  datatype Status = Open | Answered

  /** The database value of each status choice. */
  function StatusValue(s: Status): string
  {
    match s
    case Open => "open"
    case Answered => "answered"
  }

  /** The status choice whose database value is `v`, if any. */
  function ParseStatus(v: string): (r: Option<Status>)
  {
    if v == "open" then Some(Open)
    else if v == "answered" then Some(Answered)
    else None
  }

  /** An uploaded image file, as the storage back end receives it. */
  datatype Upload = Upload(name: string, size: nat)

  datatype Subject = Subject(id: nat, name: string)

  datatype Question = Question(
    id: nat,
    author: UserId,
    subject: Option<nat>,
    title: string,
    body: string,
    status: Status,
    createdAt: nat,
    canceled: bool)

  /** An image linked to a question, to an answer, to both or to neither: the schema does not choose. */
  datatype Attachment = Attachment(id: nat, image: Option<Upload>, question: Option<nat>, answer: Option<nat>)

  datatype Answer = Answer(id: nat, question: nat, author: UserId, body: string, createdAt: nat)

  datatype Reply = Reply(id: nat, answer: nat, author: UserId, body: string, createdAt: nat)

  /** A freshly saved question: the schema's defaults fill status and cancel flag. */
  function NewQuestion(id: nat, author: UserId, subject: Option<nat>, title: string, body: string, now: nat): (q: Question)
    ensures q.status == Open && !q.canceled
  {
    Question(id, author, subject, title, body, Open, now, false)
  }

  datatype Tables = Tables(
    subjects: seq<Subject>,
    questions: seq<Question>,
    answers: seq<Answer>,
    replies: seq<Reply>,
    attachments: seq<Attachment>)

  function SubjectIds(ss: seq<Subject>): set<nat> { set s | s in ss :: s.id }
  function QuestionIds(qs: seq<Question>): set<nat> { set q | q in qs :: q.id }
  function AnswerIds(ans: seq<Answer>): set<nat> { set a | a in ans :: a.id }

  /** Ids of the answers given to question `qid`. */
  function AnswersOf(ans: seq<Answer>, qid: nat): set<nat>
  {
    set a | a in ans && a.question == qid :: a.id
  }

  /** Subject names are bounded and unique; subject keys are unique. */
  ghost predicate SubjectsValid(ss: seq<Subject>)
  {
    && (forall s :: s in ss ==> |s.name| <= SubjectNameMax)
    && Pairwise(ss, (a: Subject, b: Subject) => a.name != b.name && a.id != b.id)
  }

  /** Every table has unique primary keys. */
  ghost predicate KeysUnique(t: Tables)
  {
    && Pairwise(t.questions, (a: Question, b: Question) => a.id != b.id)
    && Pairwise(t.answers, (a: Answer, b: Answer) => a.id != b.id)
    && Pairwise(t.replies, (a: Reply, b: Reply) => a.id != b.id)
    && Pairwise(t.attachments, (a: Attachment, b: Attachment) => a.id != b.id)
  }

  /** Every foreign key names an existing row; nullable keys may be null. */
  ghost predicate ReferencesExist(t: Tables)
  {
    && (forall q :: q in t.questions && q.subject.Some? ==> q.subject.value in SubjectIds(t.subjects))
    && (forall a :: a in t.answers ==> a.question in QuestionIds(t.questions))
    && (forall r :: r in t.replies ==> r.answer in AnswerIds(t.answers))
    && (forall x :: x in t.attachments && x.question.Some? ==> x.question.value in QuestionIds(t.questions))
    && (forall x :: x in t.attachments && x.answer.Some? ==> x.answer.value in AnswerIds(t.answers))
  }

  /** The integrity rules the schema imposes on the whole database. */
  ghost predicate Consistent(t: Tables)
  {
    && SubjectsValid(t.subjects)
    && (forall q :: q in t.questions ==> |q.title| <= TitleMax)
    && KeysUnique(t)
    && ReferencesExist(t)
  }

  /** `Question.subject` with `on_delete=SET_NULL`: the question stays, its subject becomes null. */
  function Detach(q: Question, sid: nat): Question
  {
    if q.subject == Some(sid) then q.(subject := None) else q
  }

  /** Deleting a subject: questions that used it keep existing with no subject. */
  function DeleteSubject(t: Tables, sid: nat): (r: Tables)
  {
    t.(subjects := Filter(t.subjects, (s: Subject) => s.id != sid),
       questions := seq(|t.questions|, i requires 0 <= i < |t.questions| => Detach(t.questions[i], sid)))
  }

  /** Deleting a question cascades to its answers, to their replies and attachments, and to its own attachments. */
  function DeleteQuestion(t: Tables, qid: nat): (r: Tables)
  {
    var gone := AnswersOf(t.answers, qid);
    Tables(
      t.subjects,
      Filter(t.questions, (q: Question) => q.id != qid),
      Filter(t.answers, (a: Answer) => a.question != qid),
      Filter(t.replies, (p: Reply) => p.answer !in gone),
      Filter(t.attachments, (x: Attachment) => x.question != Some(qid) && !(x.answer.Some? && x.answer.value in gone)))
  }

  /** Deleting an answer cascades to its replies and its attachments. */
  function DeleteAnswer(t: Tables, aid: nat): (r: Tables)
  {
    t.(answers := Filter(t.answers, (a: Answer) => a.id != aid),
       replies := Filter(t.replies, (p: Reply) => p.answer != aid),
       attachments := Filter(t.attachments, (x: Attachment) => x.answer != Some(aid)))
  }

  // ---------------------------------------------------------------------
  // Properties of the schema

  /** The two status values are distinct and are the only values that parse. */
  lemma StatusChoices(v: string)
    ensures ParseStatus(v).Some? <==> v == "open" || v == "answered"
    ensures ParseStatus(v).Some? ==> StatusValue(ParseStatus(v).value) == v
    ensures forall s :: ParseStatus(StatusValue(s)) == Some(s)
  {
  }

  /**
    The schema does not make the two parent links of an attachment exclusive:
    one with neither link and one with both are consistent.
   */
  lemma ParentLinksNotExclusive(u: Upload)
    ensures var q := NewQuestion(1, 7, None, "t", "", 0);
            var a := Answer(2, 1, 8, "b", 1);
            Consistent(Tables([], [q], [a], [], [Attachment(3, Some(u), None, None), Attachment(4, Some(u), Some(1), Some(2))]))
  {
    var q := NewQuestion(1, 7, None, "t", "", 0);
    var a := Answer(2, 1, 8, "b", 1);
    assert q.id in QuestionIds([q]);
    assert a.id in AnswerIds([a]);
  }

  /**
    `SET_NULL`: deleting a subject keeps every question (in place, same key and
    fields) except that a link to that subject becomes null, and the database
    stays consistent.
   */
  lemma {:induction false} DeleteSubjectSetsNull(t: Tables, sid: nat)
    requires Consistent(t)
    ensures var r := DeleteSubject(t, sid);
            && Consistent(r)
            && sid !in SubjectIds(r.subjects)
            && |r.questions| == |t.questions|
            && (forall i :: 0 <= i < |t.questions| ==>
                  r.questions[i] == if t.questions[i].subject == Some(sid) then t.questions[i].(subject := None) else t.questions[i])
            && r.answers == t.answers && r.replies == t.replies && r.attachments == t.attachments
  {
    var r := DeleteSubject(t, sid);
    var keep := (s: Subject) => s.id != sid;
    FilterPairwise(t.subjects, keep, (a: Subject, b: Subject) => a.name != b.name && a.id != b.id);
    forall s | s in r.subjects ensures |s.name| <= SubjectNameMax && s.id != sid {
      FilterMembership(t.subjects, keep, s);
    }
    assert QuestionIds(r.questions) == QuestionIds(t.questions) by {
      forall id | id in QuestionIds(t.questions) ensures id in QuestionIds(r.questions) {
        var q :| q in t.questions && q.id == id;
        var i :| 0 <= i < |t.questions| && t.questions[i] == q;
        assert r.questions[i].id == id;
      }
    }
    forall q | q in r.questions
      ensures |q.title| <= TitleMax
      ensures q.subject.Some? ==> q.subject.value in SubjectIds(r.subjects)
    {
      var i :| 0 <= i < |r.questions| && r.questions[i] == q;
      var old_q := t.questions[i];
      if q.subject.Some? {
        assert old_q.subject == q.subject && q.subject.value != sid;
        var s :| s in t.subjects && s.id == q.subject.value;
        FilterMembership(t.subjects, keep, s);
      }
    }
    forall i, j | 0 <= i < j < |r.questions| ensures r.questions[i].id != r.questions[j].id {
      assert r.questions[i].id == t.questions[i].id && r.questions[j].id == t.questions[j].id;
    }
  }

  /**
    `CASCADE` from a question: afterwards the question, its answers, their
    replies and every attachment of the question or of those answers are
    gone, everything else is kept, and the database stays consistent.
   */
  lemma {:induction false} DeleteQuestionCascades(t: Tables, qid: nat)
    requires Consistent(t)
    ensures var r := DeleteQuestion(t, qid);
            var gone := AnswersOf(t.answers, qid);
            && Consistent(r)
            && qid !in QuestionIds(r.questions)
            && r.subjects == t.subjects
            && (forall q :: q in r.questions <==> q in t.questions && q.id != qid)
            && (forall a :: a in r.answers <==> a in t.answers && a.question != qid)
            && (forall p :: p in r.replies <==> p in t.replies && p.answer !in gone)
            && (forall x :: x in r.attachments <==>
                  x in t.attachments && x.question != Some(qid) && !(x.answer.Some? && x.answer.value in gone))
  {
    var r := DeleteQuestion(t, qid);
    var gone := AnswersOf(t.answers, qid);
    var kq := (q: Question) => q.id != qid;
    var ka := (a: Answer) => a.question != qid;
    var kr := (p: Reply) => p.answer !in gone;
    var kx := (x: Attachment) => x.question != Some(qid) && !(x.answer.Some? && x.answer.value in gone);
    forall q ensures q in r.questions <==> q in t.questions && q.id != qid { FilterMembership(t.questions, kq, q); }
    forall a ensures a in r.answers <==> a in t.answers && a.question != qid { FilterMembership(t.answers, ka, a); }
    forall p ensures p in r.replies <==> p in t.replies && p.answer !in gone { FilterMembership(t.replies, kr, p); }
    forall x ensures x in r.attachments <==> x in t.attachments && kx(x) { FilterMembership(t.attachments, kx, x); }
    FilterPairwise(t.questions, kq, (a: Question, b: Question) => a.id != b.id);
    FilterPairwise(t.answers, ka, (a: Answer, b: Answer) => a.id != b.id);
    FilterPairwise(t.replies, kr, (a: Reply, b: Reply) => a.id != b.id);
    FilterPairwise(t.attachments, kx, (a: Attachment, b: Attachment) => a.id != b.id);
    // a key that is still referenced after the cascade names a row that survived it
    forall id | id in QuestionIds(t.questions) && id != qid ensures id in QuestionIds(r.questions) {
      var q :| q in t.questions && q.id == id;
    }
    forall id | id in AnswerIds(t.answers) && id !in gone ensures id in AnswerIds(r.answers) {
      var a :| a in t.answers && a.id == id;
    }
    assert qid !in QuestionIds(r.questions);
  }

  /**
    `CASCADE` from an answer: its replies and attachments go with it, the
    question keeps its status, and the database stays consistent.
   */
  lemma {:induction false} DeleteAnswerCascades(t: Tables, aid: nat)
    requires Consistent(t)
    ensures var r := DeleteAnswer(t, aid);
            && Consistent(r)
            && aid !in AnswerIds(r.answers)
            && r.subjects == t.subjects && r.questions == t.questions
            && (forall a :: a in r.answers <==> a in t.answers && a.id != aid)
            && (forall p :: p in r.replies <==> p in t.replies && p.answer != aid)
            && (forall x :: x in r.attachments <==> x in t.attachments && x.answer != Some(aid))
  {
    var r := DeleteAnswer(t, aid);
    var ka := (a: Answer) => a.id != aid;
    var kr := (p: Reply) => p.answer != aid;
    var kx := (x: Attachment) => x.answer != Some(aid);
    forall a ensures a in r.answers <==> a in t.answers && a.id != aid { FilterMembership(t.answers, ka, a); }
    forall p ensures p in r.replies <==> p in t.replies && p.answer != aid { FilterMembership(t.replies, kr, p); }
    forall x ensures x in r.attachments <==> x in t.attachments && x.answer != Some(aid) { FilterMembership(t.attachments, kx, x); }
    FilterPairwise(t.answers, ka, (a: Answer, b: Answer) => a.id != b.id);
    FilterPairwise(t.replies, kr, (a: Reply, b: Reply) => a.id != b.id);
    FilterPairwise(t.attachments, kx, (a: Attachment, b: Attachment) => a.id != b.id);
    forall id | id in AnswerIds(t.answers) && id != aid ensures id in AnswerIds(r.answers) {
      var a :| a in t.answers && a.id == id;
    }
  }
}
