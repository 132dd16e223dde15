/**
  The forms of core/forms.py. `MultiFileField.clean` turns whatever the
  upload widget delivered (nothing, one file, or a list of files) into a
  list; the model forms decide whether a submission is valid from the
  model fields they expose; the search form lists its status choices.

  The per-file check that `MultiFileField` inherits from the framework's
  `FileField` is written out as `BaseClean`: a file without a name is
  invalid and an empty file is rejected. The text fields the model forms
  derive from `CharField` and `TextField` are the framework's `CharField`:
  the value is stripped of surrounding whitespace before the required and
  length checks, and a NUL character makes it invalid.
 */
module Forms {
  import opened Wrappers
  import opened Models

  /** What the upload widget hands to the field: `None`/`False`/`""`, one file, or a list (or tuple) of files. */
  datatype UploadData = NoData | One(file: Upload) | Many(files: seq<Upload>)

  datatype FileError = NoFileName | EmptyFile

  /** Python truthiness of the widget's value; a file object is falsy when it has no name. */
  predicate Truthy(d: UploadData)
  {
    match d
    case NoData => false
    case One(f) => f.name != ""
    case Many(fs) => fs != []
  }

  /** The inherited single-file clean: the file itself, or the first rule it breaks. */
  function BaseClean(f: Upload): (r: Result<Upload, FileError>)
    ensures r.Ok? <==> f.name != "" && f.size > 0
    ensures r.Ok? ==> r.value == f
  {
    if f.name == "" then Err(NoFileName)
    else if f.size == 0 then Err(EmptyFile)
    else Ok(f)
  }

  /**
    The list comprehension over the files: each file cleaned in order; the
    first file that fails stops the comprehension with its error.
   */
  function CleanEach(fs: seq<Upload>): (r: Result<seq<Upload>, FileError>)
    ensures r.Ok? <==> forall i :: 0 <= i < |fs| ==> BaseClean(fs[i]).Ok?
    ensures r.Ok? ==> |r.value| == |fs| && forall i :: 0 <= i < |fs| ==> BaseClean(fs[i]) == Ok(r.value[i])
    ensures r.Err? ==> exists i :: 0 <= i < |fs| && BaseClean(fs[i]) == Err(r.error)
                                   && forall j :: 0 <= j < i ==> BaseClean(fs[j]).Ok?
    decreases |fs|
  {
    if fs == [] then Ok([])
    else
      match BaseClean(fs[0])
      case Err(e) => Err(e)
      case Ok(f) =>
        match CleanEach(fs[1..])
        case Err(e) => Err(e)
        case Ok(rest) => Ok([f] + rest)
  }

  /** `MultiFileField.clean`: always a list of cleaned files, never a bare file or nothing. */
  function MultiFileClean(d: UploadData): (r: Result<seq<Upload>, FileError>)
  {
    if !Truthy(d) then Ok([])
    else
      match d
      case One(f) => CleanEach([f])
      case Many(fs) => CleanEach(fs)
  }

  /** The characters Python's `str.strip()` removes: the Unicode whitespace. */
  predicate IsSpace(c: char)
  {
    var n := c as int;
    || n == 0x20 || 0x09 <= n <= 0x0D || 0x1C <= n <= 0x1F || n == 0x85 || n == 0xA0 || n == 0x1680
    || 0x2000 <= n <= 0x200A || n == 0x2028 || n == 0x2029 || n == 0x202F || n == 0x205F || n == 0x3000
  }

  /** `s` with its leading whitespace removed. */
  function StripLeft(s: string): string
    decreases |s|
  {
    if s != [] && IsSpace(s[0]) then StripLeft(s[1..]) else s
  }

  /** `StripLeft` keeps a suffix, what it drops is whitespace, and what it keeps does not start with whitespace. */
  lemma {:induction false} StripLeftSpec(s: string)
    ensures |StripLeft(s)| <= |s| && StripLeft(s) == s[|s| - |StripLeft(s)|..]
    ensures forall k :: 0 <= k < |s| - |StripLeft(s)| ==> IsSpace(s[k])
    ensures StripLeft(s) == [] || !IsSpace(StripLeft(s)[0])
    decreases |s|
  {
    if s != [] && IsSpace(s[0]) {
      StripLeftSpec(s[1..]);
      assert s[1..][|s| - 1 - |StripLeft(s)|..] == s[|s| - |StripLeft(s)|..];
    }
  }

  /** `s` with its trailing whitespace removed. */
  function StripRight(s: string): string
    decreases |s|
  {
    if s != [] && IsSpace(s[|s| - 1]) then StripRight(s[..|s| - 1]) else s
  }

  /** `StripRight` keeps a prefix, what it drops is whitespace, and what it keeps does not end with whitespace. */
  lemma {:induction false} StripRightSpec(s: string)
    ensures |StripRight(s)| <= |s| && StripRight(s) == s[..|StripRight(s)|]
    ensures forall k :: |StripRight(s)| <= k < |s| ==> IsSpace(s[k])
    ensures StripRight(s) == [] || !IsSpace(StripRight(s)[|StripRight(s)| - 1])
    decreases |s|
  {
    if s != [] && IsSpace(s[|s| - 1]) {
      StripRightSpec(s[..|s| - 1]);
      assert s[..|s| - 1][..|StripRight(s)|] == s[..|StripRight(s)|];
    }
  }

  /** Python's `str.strip()`, which `CharField.to_python` applies. */
  function Strip(s: string): string
  {
    StripRight(StripLeft(s))
  }

  /** Only whitespace: what a required text field treats as missing. */
  predicate Blank(s: string)
  {
    forall k :: 0 <= k < |s| ==> IsSpace(s[k])
  }

  /** `Strip` cuts out the slice `s[i..j]`, with only whitespace around it and none at its ends. */
  lemma StripSlice(s: string) returns (i: nat, j: nat)
    ensures i <= j <= |s| && Strip(s) == s[i..j]
    ensures forall k :: 0 <= k < i ==> IsSpace(s[k])
    ensures forall k :: j <= k < |s| ==> IsSpace(s[k])
    ensures Strip(s) == [] || (!IsSpace(Strip(s)[0]) && !IsSpace(Strip(s)[|Strip(s)| - 1]))
  {
    var l := StripLeft(s);
    var r := StripRight(l);
    StripLeftSpec(s);
    StripRightSpec(l);
    i := |s| - |l|;
    j := i + |r|;
    assert r == l[..|r|];
    assert l[..|r|] == s[i..j];
    if r != [] {
      assert r[0] == l[0];
    }
  }

  /** Stripping leaves nothing exactly when the input is blank. */
  lemma StripBlank(s: string)
    ensures Strip(s) == [] <==> Blank(s)
  {
    var i, j := StripSlice(s);
  }

  /** A character other than whitespace occurs in the stripped text exactly when it occurs in the input. */
  lemma StripKeeps(s: string, c: char)
    requires !IsSpace(c)
    ensures c in Strip(s) <==> c in s
  {
    var i, j := StripSlice(s);
    if c in s {
      var k :| 0 <= k < |s| && s[k] == c;
      assert Strip(s)[k - i] == c;
    }
  }

  /** Stripping twice is stripping once. */
  lemma StripIdempotent(s: string)
    ensures Strip(Strip(s)) == Strip(s)
  {
    var i, j := StripSlice(s);
  }

  /** The framework's `ProhibitNullCharactersValidator`. */
  predicate HasNull(s: string)
  {
    '\0' in s
  }

  /** What a question submission carries; an empty subject choice is `None`. */
  datatype QuestionData = QuestionData(subject: Option<nat>, title: string, body: string, images: UploadData)
  /** What an answer submission carries. */
  datatype AnswerData = AnswerData(body: string, images: UploadData)
  /** What a reply submission carries. */
  datatype ReplyData = ReplyData(body: string)

  /** The cleaned data of a valid question or answer form. */
  datatype QuestionFields = QuestionFields(subject: Option<nat>, title: string, body: string, images: seq<Upload>)
  datatype AnswerFields = AnswerFields(body: string, images: seq<Upload>)

  datatype FormError = UnknownSubject | TitleRequired | TitleTooLong | BodyRequired | NullCharacter | BadFile(error: FileError)

  /**
    `QuestionForm`: the subject is optional but must exist when chosen, the
    stripped title is required and at most 200 characters, the stripped
    body may be blank, neither holds a NUL, and the images are optional.
   */
  function CleanQuestionForm(d: QuestionData, subjects: set<nat>): (r: Result<QuestionFields, FormError>)
  {
    var title := Strip(d.title);
    var body := Strip(d.body);
    if d.subject.Some? && d.subject.value !in subjects then Err(UnknownSubject)
    else if title == "" then Err(TitleRequired)
    else if |title| > TitleMax then Err(TitleTooLong)
    else if HasNull(title) || HasNull(body) then Err(NullCharacter)
    else
      match MultiFileClean(d.images)
      case Err(e) => Err(BadFile(e))
      case Ok(fs) => Ok(QuestionFields(d.subject, title, body, fs))
  }

  /** `AnswerForm`: the stripped body is required and holds no NUL; the images are optional. */
  function CleanAnswerForm(d: AnswerData): (r: Result<AnswerFields, FormError>)
  {
    var body := Strip(d.body);
    if body == "" then Err(BodyRequired)
    else if HasNull(body) then Err(NullCharacter)
    else
      match MultiFileClean(d.images)
      case Err(e) => Err(BadFile(e))
      case Ok(fs) => Ok(AnswerFields(body, fs))
  }

  /** `ReplyForm`: the stripped body is required and holds no NUL; the cleaned body is the stripped one. */
  function CleanReplyForm(d: ReplyData): (r: Result<string, FormError>)
  {
    var body := Strip(d.body);
    if body == "" then Err(BodyRequired)
    else if HasNull(body) then Err(NullCharacter)
    else Ok(body)
  }

  /** The status choices of `SearchForm`, the empty one standing for "both". */
  const SearchStatusChoices: seq<string> := ["", "open", "answered"]

  // ---------------------------------------------------------------------
  // Properties

  /**
    `MultiFileClean` normalises the three shapes of input: nothing (or a
    falsy value) is the empty list, a single file is the same as a list
    holding just that file, and a list keeps its length and order, each
    element passed through `BaseClean`.
   */
  lemma MultiFileCleanShapes(d: UploadData)
    ensures !Truthy(d) ==> MultiFileClean(d) == Ok([])
    ensures d.One? && d.file.name != "" ==> MultiFileClean(d) == MultiFileClean(Many([d.file]))
    ensures d.One? && d.file.name != "" && d.file.size > 0 ==> MultiFileClean(d) == Ok([d.file])
    ensures d.Many? ==> (MultiFileClean(d).Ok? <==> forall i :: 0 <= i < |d.files| ==> BaseClean(d.files[i]).Ok?)
    ensures d.Many? && MultiFileClean(d).Ok? ==> MultiFileClean(d).value == d.files
  {
    if d.One? && d.file.name != "" && d.file.size > 0 {
      var r := CleanEach([d.file]);
      assert BaseClean(d.file) == Ok(r.value[0]);
      assert r.value == [d.file];
    }
    if d.Many? && MultiFileClean(d).Ok? {
      var r := MultiFileClean(d).value;
      assert |r| == |d.files|;
      forall i | 0 <= i < |r| ensures r[i] == d.files[i] {
        assert BaseClean(d.files[i]) == Ok(r[i]);
      }
    }
  }

  /**
    A question form is valid exactly when its subject is empty or known,
    its title is not blank and has at most 200 characters once stripped,
    neither title nor body holds a NUL, and its images clean; the cleaned
    fields are the stripped texts and the cleaned images.
   */
  lemma CleanQuestionFormValid(d: QuestionData, subjects: set<nat>)
    ensures CleanQuestionForm(d, subjects).Ok? <==>
              && (d.subject.None? || d.subject.value in subjects)
              && 1 <= |Strip(d.title)| <= TitleMax
              && !HasNull(d.title) && !HasNull(d.body)
              && MultiFileClean(d.images).Ok?
    ensures CleanQuestionForm(d, subjects).Ok? ==>
              CleanQuestionForm(d, subjects).value == QuestionFields(d.subject, Strip(d.title), Strip(d.body), MultiFileClean(d.images).value)
  {
    var title, body := Strip(d.title), Strip(d.body);
    StripKeeps(d.title, '\0');
    StripKeeps(d.body, '\0');
    assert HasNull(title) <==> HasNull(d.title);
    assert HasNull(body) <==> HasNull(d.body);
  }

  /**
    An answer form is valid exactly when its body is not blank, holds no
    NUL and its images clean; the cleaned body is the stripped one.
   */
  lemma CleanAnswerFormValid(d: AnswerData)
    ensures CleanAnswerForm(d).Ok? <==>
              !Blank(d.body) && !HasNull(d.body) && MultiFileClean(d.images).Ok?
    ensures CleanAnswerForm(d).Ok? ==> CleanAnswerForm(d).value == AnswerFields(Strip(d.body), MultiFileClean(d.images).value)
  {
    StripBlank(d.body);
    StripKeeps(d.body, '\0');
  }

  /** A reply form is valid exactly when its body is not blank and holds no NUL; it yields the stripped body. */
  lemma CleanReplyFormValid(d: ReplyData)
    ensures CleanReplyForm(d).Ok? <==> !Blank(d.body) && !HasNull(d.body)
    ensures CleanReplyForm(d).Ok? ==> CleanReplyForm(d).value == Strip(d.body)
  {
    StripBlank(d.body);
    StripKeeps(d.body, '\0');
  }

  /** Zero images is a valid choice on both forms that take images. */
  lemma ImagesOptional(subject: Option<nat>, title: string, body: string, subjects: set<nat>)
    ensures (subject.None? || subject.value in subjects) && 1 <= |Strip(title)| <= TitleMax && !HasNull(title) && !HasNull(body) ==>
              CleanQuestionForm(QuestionData(subject, title, body, NoData), subjects) == Ok(QuestionFields(subject, Strip(title), Strip(body), []))
    ensures Strip(body) != "" && !HasNull(body) ==> CleanAnswerForm(AnswerData(body, NoData)) == Ok(AnswerFields(Strip(body), []))
  {
    assert MultiFileClean(NoData) == Ok([]);
    CleanQuestionFormValid(QuestionData(subject, title, body, NoData), subjects);
    StripBlank(body);
    CleanAnswerFormValid(AnswerData(body, NoData));
  }

  /** The search form offers exactly the model's two statuses plus "both". */
  lemma SearchChoicesAreStatuses(v: string)
    ensures v in SearchStatusChoices <==> v == "" || ParseStatus(v).Some?
    ensures |SearchStatusChoices| == 3 && SearchStatusChoices[0] == ""
  {
  }
}
