# A verified model of a small Q&A forum

This project is a Dafny model of a small Django Q&A forum. Students post
questions, optionally under a subject and with images. Other users answer
them, also with images, and reply to answers. The author of a question may
cancel it. Lists of questions can be searched and filtered. The model
covers four parts of the forum's `core` application:

- **models.dfy** (`core/models.py`): the records (subject, question with its
  two-valued status and cancel flag, attachment, answer, reply), the schema's
  bounds and key rules, and what `SET_NULL` and `CASCADE` do when a subject,
  a question or an answer is deleted.
- **views.dfy** (`core/views.py`):
  - `_apply_filters` and the two list views, as pure functions over a
    question table;
  - the four writing handlers, as methods of a `Store` class whose fields
    are the tables. Each handler takes the signed-in user and the submitted
    data as parameters and returns a `Response` (redirect, render with a
    status code, or not found).
- **forms.dfy** (`core/forms.py`): `MultiFileField.clean`, the text
  clean-up that the framework's `CharField` applies (stripping whitespace,
  rejecting NUL), the validity rules of the question, answer and reply
  forms, and the search form's status choices.
- **core_extras.dfy** (`core/templatetags/core_extras.py`): the template tags
  `qreplace`, `highlight` (with Django's HTML `escape` written out),
  `is_owner`, `basename` and `badge_for_status`.

Three support modules hold reusable pieces:

- `Wrappers`: `Option` and `Result`.
- `Seqs`: an order-preserving `Filter`, plus subsequence and pairwise
  predicates and their lemmas.
- `Strings`: ASCII case-insensitive comparison and substring search.

Primary keys are naturals handed out by one counter. `created_at` is a
second counter, so every table is kept in creation order. "Newest first" is
therefore the reverse of a table.

## Model

| member | source | states |
|---|---|---|
| Models.StatusChoices | core/models.py:12-14 | a status is one of exactly two values, `open` and `answered`; they are the only strings that parse, and each round-trips |
| Models.NewQuestion | core/models.py:20-22 | a freshly saved question is `open` and not canceled |
| Models.ParentLinksNotExclusive | core/models.py:26-29 | the schema accepts an attachment linked to neither parent and one linked to both, so it does not enforce exactly one parent |
| Models.DeleteSubjectSetsNull | core/models.py:17 | deleting a subject keeps every question in place and only nulls its link to that subject; the database stays consistent (titles at most 200, subject names at most 100 and unique, keys unique, references existing) |
| Models.DeleteQuestionCascades | core/models.py:28-38 | deleting a question removes exactly it, its answers, their replies, and the attachments of the question and of those answers; nothing else goes, and the database stays consistent |
| Models.DeleteAnswerCascades | core/models.py:29-38 | deleting an answer removes exactly it, its replies and its attachments; questions are untouched, and the database stays consistent |
| Forms.BaseClean | core/forms.py:20 | the inherited single-file clean accepts a file exactly when it has a name and is not empty, and then returns it unchanged |
| Forms.CleanEach | core/forms.py:20 | the comprehension succeeds exactly when every file cleans; it then has the same length and order as the input; otherwise its error is the first failing file's error |
| Forms.MultiFileCleanShapes | core/forms.py:15-20 | falsy data gives the empty list; one file is treated as a one-element list; a list keeps its length and order, each element passed through the base clean |
| Forms.StripSlice | core/forms.py:31-45 | the framework's text field, behind the `title` and `body` fields of all three model forms, strips its input: stripping cuts out one slice of the input, with only whitespace before and after it and none at its two ends |
| Forms.StripBlank | core/forms.py:31-45 | stripping leaves nothing exactly when the input is all whitespace |
| Forms.StripKeeps | core/forms.py:31-45 | a character that is not whitespace occurs in the stripped text exactly when it occurs in the input |
| Forms.StripIdempotent | core/forms.py:31-45 | stripping twice is stripping once |
| Forms.CleanQuestionFormValid | core/forms.py:23-31 | a question form is valid exactly when its subject is empty or exists, its stripped title has 1 to 200 characters, neither title nor body holds a NUL, and its images clean; the cleaned title and body are the stripped texts and the images the cleaned files |
| Forms.CleanAnswerFormValid | core/forms.py:33-40 | an answer form is valid exactly when its body is not all whitespace, holds no NUL, and its images clean; the cleaned body is the stripped text |
| Forms.CleanReplyFormValid | core/forms.py:42-45 | a reply form is valid exactly when its body is not all whitespace and holds no NUL; the cleaned body is the stripped text |
| Forms.ImagesOptional | core/forms.py:24-37 | zero images is valid on both the question form and the answer form, and gives an empty list of files |
| Forms.SearchChoicesAreStatuses | core/forms.py:49-52 | the search status choices are exactly `""` (both), `open` and `answered` |
| Views.ApplyFiltersIsConjunction | core/views.py:15-25 | the three successive narrowings equal one filter by the conjunction of the given criteria (text in title or body ignoring case, a known status, a subject); the result is an order-preserving subsequence holding exactly the matching questions |
| Views.FiltersMonotone | core/views.py:19-24 | dropping any one criterion can only widen the result |
| Views.UnknownStatusIgnored | core/views.py:21-22 | a status other than `open`/`answered` filters exactly as if none were given |
| Views.ByNewest | core/views.py:33 | ordering a creation-ordered table by `-created_at` keeps its members and makes `created_at` strictly decrease |
| Views.FilteredNewestFirst | core/views.py:33-35 | filtering a newest-first sequence keeps it newest first |
| Views.QuestionListSpec | core/views.py:28-39 | the public list is newest first and holds exactly the matching questions that are not canceled |
| Views.MyQuestionsSpec | core/views.py:42-52 | "my questions" is newest first and holds exactly the user's own matching questions, canceled ones included |
| Views.FindBy | core/views.py:78 | the lookup by key of `get_object_or_404` gives a position holding the key, or reports that no row has it |
| Views.FindByKeys | core/views.py:90 | the lookup depends on the rows' keys alone, so rewriting other fields does not move it |
| Views.QuestionDetail | core/views.py:77-85 | the detail page renders with 200 exactly when the key exists, and is not found otherwise |
| Views.CancelSpec | core/views.py:88-97 | cancelling changes at most the question with the key, only when the user wrote it, and only its flag, which becomes true; a second cancel changes nothing more |
| Views.QuestionsEvolveTransitive | core/views.py:88-135 | the one-way rules for questions (no row lost or rekeyed, only status and flag change, `canceled` never reset, `answered` never reverts) compose over any run of handlers |
| Views.AnsweredIffCounted | core/views.py:129-132 | while the handlers keep the store, a question is answered exactly when its answer count is positive |
| Views.CancelKeeps | core/views.py:94-95 | setting the flag keeps the store invariant (schema rules, keys and stamps in order, status following answers, one parent per attachment) |
| Views.InsertQuestionKeeps | core/views.py:61-63 | saving a new open question with the next key and stamp keeps the store invariant and adds exactly its key |
| Views.InsertAnswerKeeps | core/views.py:119-132 | saving an answer and marking its question answered keeps the store invariant and adds exactly the answer's key |
| Views.InsertReplyKeeps | core/views.py:144-147 | saving a reply to an existing answer keeps the store invariant |
| Views.InsertAttachmentKeeps | core/views.py:66-68 | saving an attachment with exactly one existing parent keeps the store invariant |
| Views.InsertAttachmentsKeeps | core/views.py:66-68 | saving one attachment per file, keyed consecutively from the counter and all linked to one existing parent, keeps the store invariant |
| Views.QuestionAddedKeeps | core/views.py:61-68 | a whole successful question submission (the question with the next key and stamp, then its attachments) keeps the store invariant |
| Views.AnswerAddedKeeps | core/views.py:119-132 | a whole successful answer submission (the answer, its attachments, the question marked answered) keeps the store invariant |
| Views.NextKeyUnlinked | core/views.py:63 | under the store invariant no attachment already refers to the key the next saved row receives |
| Views.QuestionAddedAttachments | core/views.py:66-68 | after a question submission the new question's attachments are exactly those made from its images, one per image and in order; every other question keeps its attachments |
| Views.AnswerAddedAttachments | core/views.py:125-127 | after an answer submission the new answer's attachments are exactly those made from its images, one per image and in order |
| Views.AnswerAddedCounts | core/views.py:129-132 | after an answer submission its question is answered, its answer count has grown by exactly one, and every other question is unchanged |
| Views.Store.constructor | core/models.py:7-9 | an empty forum over valid subjects satisfies the store invariant |
| Views.IsOwnerDecidesCancel | core/templatetags/core_extras.py:47-55 | the template filter `is_owner` holds for a question and a signed-in user exactly when `question_cancel` lets that user cancel it; an object without an author is never owned, and no user or an anonymous user owns nothing |
| Views.Store.InsertQuestion | core/views.py:61-63 | `q.save()` appends exactly the question with the next key and stamp; no other table changes, and the one-way rules hold |
| Views.Store.InsertAnswer | core/views.py:119-132 | `ans.save()` and the status update append exactly the answer, which carries the next key and stamp, and mark answered the question it belongs to, changing no other field, table or question |
| Views.Store.AppendQuestion | core/views.py:61-68 | the writes of a question submission turn the tables into exactly the old ones plus the question, under the next key and stamp, and one attachment per image linked to it |
| Views.Store.AppendAnswer | core/views.py:119-132 | the writes of an answer submission turn the tables into exactly the old ones plus the answer, under the next key and stamp, one attachment per image linked to it, and the answer's own question marked answered |
| Views.Store.SaveReply | core/views.py:144-147 | `rep.save()` appends exactly the reply with the next key and stamp and keeps the store invariant |
| Views.Store.AddAttachments | core/views.py:66-68 | the loop adds exactly one attachment per file, in order, with consecutive keys from the counter, all linked to the given parent; no other table changes |
| Views.Store.SaveQuestion | core/views.py:61-68 | the success path of `question_create` turns the tables into exactly the old ones plus the question and its attachments, uses one key for the question and one per image, advances the clock once, and keeps the store invariant and the one-way rules |
| Views.Store.SaveAnswer | core/views.py:119-132 | the success path of `answer_create` turns the tables into exactly the old ones plus the answer and its attachments, with the question marked answered, uses one key for the answer and one per image, advances the clock once, and keeps the store invariant and the one-way rules |
| Views.Store.QuestionCreate | core/views.py:55-74 | a GET or an invalid form renders the form and changes nothing, counters included; a valid POST adds exactly one open, uncanceled question authored by the caller, with the stripped title and body, plus one attachment per cleaned file linked to it, and redirects to it |
| Views.Store.QuestionCancel | core/views.py:88-97 | an unknown key is not found; a non-author changes nothing and goes back to the question; the author sets `canceled` whatever the current state, nothing else changes, and goes to the list |
| Views.Store.AnswerCreate | core/views.py:100-135 | unknown key: not found; canceled question: nothing changes, redirect to it; invalid form: 400 and nothing persists, counters included; otherwise one answer by the caller with the stripped body, one attachment per file linked to that answer, and the question becomes (or stays) answered with no other field changed |
| Views.Store.ReplyCreate | core/views.py:138-149 | unknown answer: not found; a valid POST adds exactly one reply by the caller under the answer, with the stripped body, the next key and the next stamp; a GET or an invalid form changes nothing, counters included; every outcome redirects to the answer's question |
| CoreExtras.QReplace | core/templatetags/core_extras.py:18-24 | an override of `None` or `""` removes its key; any other override sets the key to that single value; keys not overridden keep all their values, starting from the request's query or from nothing |
| CoreExtras.EscapeSafe | core/templatetags/core_extras.py:35 | escaped text holds no raw `<`, `>`, `"` or `'` |
| CoreExtras.UnescapeEscape | core/templatetags/core_extras.py:35 | reading the five entities back undoes `escape` |
| CoreExtras.SubVisible | core/templatetags/core_extras.py:41 | the case-insensitive substitution only wraps pieces of the subject string: the pieces concatenate back to it |
| CoreExtras.SubMarksMatch | core/templatetags/core_extras.py:37-41 | every marked piece equals the term ignoring case |
| CoreExtras.SubMarksIffOccurs | core/templatetags/core_extras.py:37-41 | the substitution marks something exactly when the term occurs ignoring case |
| CoreExtras.SubPieceAt | core/templatetags/core_extras.py:37-41 | each piece of the substitution fits the input at its own offset: a marked piece is an occurrence of the term there, a plain piece is the single character at a position where no occurrence starts |
| CoreExtras.SubCovering | core/templatetags/core_extras.py:41 | the pieces tile the input: every position of it lies inside one of them |
| CoreExtras.SubMarksEveryOccurrence | core/templatetags/core_extras.py:37-41 | the start of every occurrence of the term, ignoring case, lies inside a marked piece, either the one for that occurrence or one for an overlapping occurrence further left, so no occurrence is skipped |
| CoreExtras.HighlightPieceAt | core/templatetags/core_extras.py:38-41 | each piece of `highlight` as written comes from the substitution over the escaped text at the same position: a marked piece is that occurrence escaped once more, a plain piece is unchanged |
| CoreExtras.HighlightMarksEveryOccurrence | core/templatetags/core_extras.py:37-41 | `highlight` as written puts the start of every occurrence of the term in the escaped text inside a mark |
| CoreExtras.HighlightSafe | core/templatetags/core_extras.py:34-42 | with empty text or term the output is the escaped text; in every case the output is built from pieces none of which holds a raw `<`, `>`, `"` or `'` |
| CoreExtras.HighlightMarksIffOccurs | core/templatetags/core_extras.py:37-42 | a mark appears exactly when the term occurs in the escaped text; otherwise the output is the escaped text |
| CoreExtras.HighlightDoubleEscapes | core/templatetags/core_extras.py:38-41 | as written, `highlight("&", "&")` outputs `<mark>&amp;</mark>amp;`, whose visible text reads back as `&amp;` instead of `&` |
| CoreExtras.HighlightFixedCorrect | core/templatetags/core_extras.py:28-44 | matching the original text and escaping each piece shows exactly the original text, is injection-safe, and marks something exactly when the term occurs in the text |
| CoreExtras.HighlightFixedMarksEveryOccurrence | core/templatetags/core_extras.py:37-41 | the corrected `highlight` puts the start of every occurrence of the term in the original text inside a mark |
| CoreExtras.HighlightFixedAmpersand | core/templatetags/core_extras.py:38-41 | the corrected version outputs `<mark>&amp;</mark>` for the same input |
| CoreExtras.JoinSplit | core/templatetags/core_extras.py:68 | the `/`-separated fields of a path join back to the path |
| CoreExtras.SplitJoin | core/templatetags/core_extras.py:68 | splitting a join of slash-free fields gives the fields back |
| CoreExtras.LastNameSpec | core/templatetags/core_extras.py:68 | the last-name scan gives `""` exactly when every field is empty or `.`; otherwise it gives a field that is neither, and every later field is empty or `.` |
| CoreExtras.BasenameSpec | core/templatetags/core_extras.py:58-70 | the result is `""` exactly when the input is empty or every `/`-separated field is empty or `.`; otherwise it is the last field that is neither, and it holds no `/`; a slash-free name is its own basename, and for `dir/name` it is `name` |
| CoreExtras.BadgeForStatusTable | core/templatetags/core_extras.py:73-84 | `open`, `answered` and `canceled` get their three classes; no stored status is `canceled`; every other input gets `bg-light text-dark`, so the lookup is total |

## Left out

- Rendering, flash messages, redirects and URL reversing: the handlers return
  a `Response` value naming the page or the target instead.
- Authentication (`login_required`) and the user table: the signed-in user is
  an explicit parameter, and users appear only as ids. Deleting a user, which
  cascades to their questions, answers and replies, is not modelled.
- `transaction.atomic`: the model is sequential, and each handler decides
  every error case before it writes anything.
- The ORM: `select_related` is not modelled. `annotate(Count("answers"))`
  is the derived `Views.AnswerCount`.
- `Views.Store.AnswerCreate` has no request method check, just like the
  source. A GET carries an empty body, so the form is invalid and the
  answer is 400.
- Form validation is modelled by the field rules the forms expose,
  including the framework's stripping of text fields and its rejection of
  NUL characters. Whitespace is the set Python's `str.strip()` removes.
  Error messages are not rendered. The image fields are plain file fields,
  so no content check applies; files are opaque values with a name and a
  size.
- The `icontains` filters of the list views (`Strings.ContainsCI`) fold
  case for ASCII letters only. The database's Unicode case folding is not
  modelled.
- The subject filter parameter is a key or nothing. A non-numeric value,
  which makes the framework raise, is not modelled.
- `created_at` timestamps are a counter. Primary keys of all tables come from
  one shared counter; the source gives each table its own sequence, which only
  changes the key values.
- Deletions happen only through the admin site, never through a handler.
  `Models.DeleteAnswerCascades` shows that such a deletion leaves the
  question's status as it was, so the store invariant's "answered exactly
  when it has an answer" holds only for stores the handlers alone have
  written.
- `CoreExtras.QReplace`: percent-encoding and the key order of `urlencode` are
  not modelled; the result is the merged multi-valued query. Keyword
  arguments have distinct names (Python guarantees it), and their values are
  strings or `None`.
- `highlight`: case-insensitivity is ASCII only. Python's Unicode case
  folding is not modelled. The `re.error` fallback is unreachable, because
  the term passes through `re.escape`. A missing text is the empty string.
- `CoreExtras.BasenameSpec`: only the POSIX reading of the path is modelled.
  `Path(...).name` never raises on a string, so the `split("/")` fallback is
  unreachable and is not modelled.
- core/admin.py and core/urls.py are framework configuration with no logic;
  they are not part of this model.

## Findings

| source | as written | input that shows it | evidently intended | confidence | as-written member | corrected member |
|---|---|---|---|---|---|---|
| core/templatetags/core_extras.py:38-41 | the term is matched against the already escaped text, and the match is escaped a second time inside `<mark>` | text `&`, term `&`: output `<mark>&amp;</mark>amp;`, which shows as `&amp;` | match the original text, escape the marked and the unmarked parts once each, so the output shows exactly the text | not executed | CoreExtras.HighlightDoubleEscapes | CoreExtras.HighlightFixedCorrect |
