/**
  The template tags and filters of core/templatetags/core_extras.py:
  `qreplace` (rebuild the query with some keys replaced or removed),
  `highlight` (escape a text and mark the search term in it), `is_owner`,
  `basename` and `badge_for_status`.
 */
module CoreExtras {
  import opened Wrappers
  import opened Strings
  import Models

  // ---------------------------------------------------------------------
  // qreplace

  /** A multi-valued query: each key maps to the list of its values. */
  type QueryDict = map<string, seq<string>>

  /** An override removes its key when its value is `None` or the empty string. */
  predicate Removes(v: Option<string>)
  {
    v.None? || v.value == ""
  }

  /** Some override names key `k`. */
  predicate Overridden(kwargs: seq<(string, Option<string>)>, k: string)
  {
    exists i :: 0 <= i < |kwargs| && kwargs[i].0 == k
  }

  /** The query the tag starts from: a copy of the request's, or an empty one when there is no request. */
  function BaseQuery(request: Option<QueryDict>): QueryDict
  {
    if request.Some? then request.value else map[]
  }

  /**
    `qreplace`: copy the current query, then for each keyword argument
    either drop the key or set it to that single value. Keyword arguments
    have distinct names.
   */
  method QReplace(request: Option<QueryDict>, kwargs: seq<(string, Option<string>)>) returns (query: QueryDict)
    requires forall i, j :: 0 <= i < j < |kwargs| ==> kwargs[i].0 != kwargs[j].0
    ensures forall i :: 0 <= i < |kwargs| && Removes(kwargs[i].1) ==> kwargs[i].0 !in query
    ensures forall i :: 0 <= i < |kwargs| && !Removes(kwargs[i].1) ==>
              kwargs[i].0 in query && query[kwargs[i].0] == [kwargs[i].1.value]
    ensures forall k :: !Overridden(kwargs, k) ==>
              (k in query <==> k in BaseQuery(request)) && (k in query ==> query[k] == BaseQuery(request)[k])
  {
    query := BaseQuery(request);
    var i := 0;
    while i < |kwargs|
      invariant 0 <= i <= |kwargs|
      invariant forall j :: 0 <= j < i && Removes(kwargs[j].1) ==> kwargs[j].0 !in query
      invariant forall j :: 0 <= j < i && !Removes(kwargs[j].1) ==>
                  kwargs[j].0 in query && query[kwargs[j].0] == [kwargs[j].1.value]
      invariant forall k :: (forall j :: 0 <= j < i ==> kwargs[j].0 != k) ==>
                  (k in query <==> k in BaseQuery(request)) && (k in query ==> query[k] == BaseQuery(request)[k])
    {
      var (k, v) := kwargs[i];
      if Removes(v) {
        query := query - {k};
      } else {
        query := query[k := [v.value]];
      }
      i := i + 1;
    }
  }

  // ---------------------------------------------------------------------
  // Escaping

  /** The characters HTML escaping replaces, except `&`, which can only appear as the start of an entity. */
  predicate Special(c: char)
  {
    c == '<' || c == '>' || c == '"' || c == '\''
  }

  /** No raw markup character: safe to place between tags. */
  predicate Safe(s: string)
  {
    forall i :: 0 <= i < |s| ==> !Special(s[i])
  }

  /** The framework's `escape` on one character. */
  function EscapeChar(c: char): string
  {
    if c == '&' then "&amp;"
    else if c == '<' then "&lt;"
    else if c == '>' then "&gt;"
    else if c == '"' then "&quot;"
    else if c == '\'' then "&#x27;"
    else [c]
  }

  /** The framework's `escape`: every character escaped in turn. */
  function Escape(s: string): string
    decreases |s|
  {
    if s == [] then [] else EscapeChar(s[0]) + Escape(s[1..])
  }

  /** The browser's reading of the five entities `Escape` produces. */
  function Unescape(s: string): string
    decreases |s|
  {
    if s == [] then []
    else if |s| >= 5 && s[..5] == "&amp;" then ['&'] + Unescape(s[5..])
    else if |s| >= 4 && s[..4] == "&lt;" then ['<'] + Unescape(s[4..])
    else if |s| >= 4 && s[..4] == "&gt;" then ['>'] + Unescape(s[4..])
    else if |s| >= 6 && s[..6] == "&quot;" then ['"'] + Unescape(s[6..])
    else if |s| >= 6 && s[..6] == "&#x27;" then ['\''] + Unescape(s[6..])
    else [s[0]] + Unescape(s[1..])
  }

  lemma {:induction false} EscapeSafe(s: string)
    ensures Safe(Escape(s))
    decreases |s|
  {
    if s != [] {
      EscapeSafe(s[1..]);
      var e := EscapeChar(s[0]);
      assert Safe(e);
      var r := Escape(s);
      assert r == e + Escape(s[1..]);
      forall i | 0 <= i < |r| ensures !Special(r[i]) {
        if i >= |e| { assert r[i] == Escape(s[1..])[i - |e|]; }
      }
    }
  }

  lemma {:induction false} EscapeAppend(a: string, b: string)
    ensures Escape(a + b) == Escape(a) + Escape(b)
    decreases |a|
  {
    if a == [] {
      assert a + b == b;
    } else {
      assert (a + b)[0] == a[0] && (a + b)[1..] == a[1..] + b;
      EscapeAppend(a[1..], b);
    }
  }

  /** Each of the five entities is read back as its character. */
  lemma UnescapeAmp(rest: string)
    ensures Unescape("&amp;" + rest) == "&" + Unescape(rest)
  {
    var s := "&amp;" + rest;
    assert s[..5] == "&amp;" && s[5..] == rest;
  }

  lemma UnescapeLt(rest: string)
    ensures Unescape("&lt;" + rest) == "<" + Unescape(rest)
  {
    var s := "&lt;" + rest;
    assert s[..4] == "&lt;" && s[4..] == rest;
    assert |s| >= 5 ==> s[..5][1] == 'l';
  }

  lemma UnescapeGt(rest: string)
    ensures Unescape("&gt;" + rest) == ">" + Unescape(rest)
  {
    var s := "&gt;" + rest;
    assert s[..4] == "&gt;" && s[4..] == rest;
    assert |s| >= 5 ==> s[..5][1] == 'g';
    assert s[..4][1] == 'g';
  }

  lemma UnescapeQuot(rest: string)
    ensures Unescape("&quot;" + rest) == "\"" + Unescape(rest)
  {
    var s := "&quot;" + rest;
    assert s[..6] == "&quot;" && s[6..] == rest;
    assert s[..5][1] == 'q' && s[..4][1] == 'q';
  }

  lemma UnescapeApos(rest: string)
    ensures Unescape("&#x27;" + rest) == "'" + Unescape(rest)
  {
    var s := "&#x27;" + rest;
    assert s[..6] == "&#x27;" && s[6..] == rest;
    assert s[..5][1] == '#' && s[..4][1] == '#' && s[..6][1] == '#';
  }

  /** A character other than `&` is read as itself. */
  lemma UnescapePlain(c: char, rest: string)
    requires c != '&'
    ensures Unescape([c] + rest) == [c] + Unescape(rest)
  {
    var s := [c] + rest;
    assert s[0] == c && s[1..] == rest;
    assert |s| >= 4 ==> s[..4][0] == c;
    assert |s| >= 5 ==> s[..5][0] == c;
    assert |s| >= 6 ==> s[..6][0] == c;
  }

  /** Unescaping one escaped character and a rest gives back that character and the rest unescaped. */
  lemma UnescapeStep(c: char, rest: string)
    ensures Unescape(EscapeChar(c) + rest) == [c] + Unescape(rest)
  {
    if c == '&' {
      UnescapeAmp(rest);
    } else if c == '<' {
      UnescapeLt(rest);
    } else if c == '>' {
      UnescapeGt(rest);
    } else if c == '"' {
      UnescapeQuot(rest);
    } else if c == '\'' {
      UnescapeApos(rest);
    } else {
      UnescapePlain(c, rest);
    }
  }

  /** Escaping loses nothing: the browser reads back the original text. */
  lemma {:induction false} UnescapeEscape(s: string)
    ensures Unescape(Escape(s)) == s
    decreases |s|
  {
    if s != [] {
      UnescapeStep(s[0], Escape(s[1..]));
      UnescapeEscape(s[1..]);
    }
  }

  // ---------------------------------------------------------------------
  // highlight

  /** A run of output text, either plain or wrapped in a `<mark>` element. */
  datatype Piece = Plain(text: string) | Marked(text: string)

  /** The HTML the pieces become. */
  function Render(ps: seq<Piece>): string
    decreases |ps|
  {
    if ps == [] then []
    else (match ps[0]
          case Plain(t) => t
          case Marked(t) => "<mark>" + t + "</mark>") + Render(ps[1..])
  }

  /** The text of the pieces with the `<mark>` tags taken out. */
  function Visible(ps: seq<Piece>): string
    decreases |ps|
  {
    if ps == [] then [] else ps[0].text + Visible(ps[1..])
  }

  predicate AllSafe(ps: seq<Piece>)
  {
    forall i :: 0 <= i < |ps| ==> Safe(ps[i].text)
  }

  predicate HasMark(ps: seq<Piece>)
  {
    exists i :: 0 <= i < |ps| && ps[i].Marked?
  }

  /**
    The pattern substitution: scanning left to right, a case-insensitive
    occurrence of `term` becomes a marked piece and the scan resumes after
    it; any other character stays plain. Occurrences never overlap.
   */
  function Sub(s: string, term: string): (ps: seq<Piece>)
    requires term != []
    decreases |s|
  {
    if s == [] then []
    else if MatchAt(s, term, 0) then [Marked(s[..|term|])] + Sub(s[|term|..], term)
    else [Plain([s[0]])] + Sub(s[1..], term)
  }

  /** The replacement as written: the matched text is escaped once more inside the mark. */
  function EscapeMarked(ps: seq<Piece>): (r: seq<Piece>)
    ensures |r| == |ps|
    ensures forall i :: 0 <= i < |ps| ==> r[i].Marked? == ps[i].Marked?
    decreases |ps|
  {
    if ps == [] then []
    else [if ps[0].Marked? then Marked(Escape(ps[0].text)) else ps[0]] + EscapeMarked(ps[1..])
  }

  /** `highlight` as written, as pieces: the matching runs over the already escaped text. */
  function HighlightPieces(text: string, term: string): seq<Piece>
  {
    if text == [] || term == [] then [Plain(Escape(text))]
    else EscapeMarked(Sub(Escape(text), term))
  }

  /** `highlight` as written. */
  function Highlight(text: string, term: string): string
  {
    Render(HighlightPieces(text, term))
  }

  /** Every piece of the substitution is a slice of the input, so a safe input gives safe pieces. */
  lemma {:induction false} SubSafe(s: string, term: string)
    requires term != [] && Safe(s)
    ensures AllSafe(Sub(s, term))
    decreases |s|
  {
    if s != [] {
      if MatchAt(s, term, 0) {
        assert Safe(s[|term|..]) by {
          forall i | 0 <= i < |s[|term|..]| ensures !Special(s[|term|..][i]) { assert s[|term|..][i] == s[i + |term|]; }
        }
        SubSafe(s[|term|..], term);
      } else {
        assert Safe(s[1..]) by {
          forall i | 0 <= i < |s[1..]| ensures !Special(s[1..][i]) { assert s[1..][i] == s[i + 1]; }
        }
        SubSafe(s[1..], term);
      }
    }
  }

  /** The pieces of the substitution spell out its input. */
  lemma {:induction false} SubVisible(s: string, term: string)
    requires term != []
    ensures Visible(Sub(s, term)) == s
    decreases |s|
  {
    if s != [] {
      if MatchAt(s, term, 0) {
        var rest := s[|term|..];
        SubVisible(rest, term);
        PiecesCons(Marked(s[..|term|]), Sub(rest, term));
        assert s == s[..|term|] + rest;
      } else {
        SubVisible(s[1..], term);
        PiecesCons(Plain([s[0]]), Sub(s[1..], term));
        assert s == [s[0]] + s[1..];
      }
    }
  }

  /** Every marked piece is an occurrence of the term, up to case. */
  lemma {:induction false} SubMarksMatch(s: string, term: string)
    requires term != []
    ensures forall i :: 0 <= i < |Sub(s, term)| && Sub(s, term)[i].Marked? ==> EqualCI(Sub(s, term)[i].text, term)
    decreases |s|
  {
    if s != [] {
      if MatchAt(s, term, 0) {
        SubMarksMatch(s[|term|..], term);
      } else {
        SubMarksMatch(s[1..], term);
      }
    }
  }

  /** A sequence of pieces has a mark exactly when its head or its tail has one. */
  lemma HasMarkCons(p: Piece, ps: seq<Piece>)
    ensures HasMark([p] + ps) <==> p.Marked? || HasMark(ps)
  {
    var qs := [p] + ps;
    if p.Marked? {
      assert qs[0].Marked?;
    }
    if HasMark(ps) {
      var i :| 0 <= i < |ps| && ps[i].Marked?;
      assert qs[i + 1] == ps[i];
    }
    if HasMark(qs) {
      var i :| 0 <= i < |qs| && qs[i].Marked?;
      if i > 0 { assert ps[i - 1] == qs[i]; }
    }
  }

  /** Without an occurrence at the front, the term occurs in a string exactly when it occurs after its first character. */
  lemma ContainsCIShift(s: string, term: string)
    requires s != [] && !MatchAt(s, term, 0)
    ensures ContainsCI(s, term) <==> ContainsCI(s[1..], term)
  {
    var tail := s[1..];
    if ContainsCI(tail, term) {
      var i: nat :| i <= |tail| && MatchAt(tail, term, i);
      assert s[i + 1..i + 1 + |term|] == tail[i..i + |term|];
      assert MatchAt(s, term, i + 1);
    }
    if ContainsCI(s, term) {
      var i: nat :| i <= |s| && MatchAt(s, term, i);
      assert s[i..i + |term|] == tail[i - 1..i - 1 + |term|];
      assert MatchAt(tail, term, i - 1);
    }
  }

  /** The substitution marks something exactly when the term occurs in the input. */
  lemma {:induction false} SubMarksIffOccurs(s: string, term: string)
    requires term != []
    ensures HasMark(Sub(s, term)) <==> ContainsCI(s, term)
    decreases |s|
  {
    if s == [] {
      assert !MatchAt(s, term, 0);
    } else if MatchAt(s, term, 0) {
      assert Sub(s, term)[0].Marked?;
    } else {
      SubMarksIffOccurs(s[1..], term);
      HasMarkCons(Plain([s[0]]), Sub(s[1..], term));
      ContainsCIShift(s, term);
    }
  }

  /** Where piece `k` starts in the string the pieces spell out. */
  function Offset(ps: seq<Piece>, k: nat): nat
    requires k <= |ps|
  {
    |Visible(ps[..k])|
  }

  /** Occurrences in a suffix are the occurrences in the whole string, shifted. */
  lemma MatchAtShift(s: string, term: string, d: nat, j: nat)
    requires d <= |s|
    ensures MatchAt(s[d..], term, j) <==> MatchAt(s, term, d + j)
  {
    if j + |term| <= |s| - d {
      assert s[d..][j..j + |term|] == s[d + j..d + j + |term|];
    }
  }

  /** Behind a first piece, every offset moves by that piece's length. */
  lemma OffsetCons(p: Piece, ps: seq<Piece>, k: nat)
    requires 1 <= k <= |ps| + 1
    ensures Offset([p] + ps, k) == |p.text| + Offset(ps, k - 1)
  {
    assert ([p] + ps)[..k] == [p] + ps[..k - 1];
    PiecesCons(p, ps[..k - 1]);
  }

  /**
    Piece `k` of `ps` is what the scan of `re.sub` over `s` produces at its
    offset: a marked piece is the occurrence of the term that starts
    there, a plain piece is a single character at which no occurrence
    starts.
   */
  predicate PieceFits(s: string, term: string, ps: seq<Piece>, k: nat)
    requires k < |ps|
  {
    var o := Offset(ps, k);
    && (ps[k].Marked? ==> MatchAt(s, term, o) && ps[k].text == s[o..o + |term|])
    && (ps[k].Plain? ==> o < |s| && !MatchAt(s, term, o) && ps[k].text == [s[o]])
  }

  /** A piece that fits the rest of the string after a first piece of length `d` fits the whole string one place later. */
  lemma ShiftPiece(s: string, term: string, d: nat, p: Piece, rest: seq<Piece>, k: nat)
    requires d <= |s| && |p.text| == d && 1 <= k <= |rest|
    requires PieceFits(s[d..], term, rest, k - 1)
    ensures PieceFits(s, term, [p] + rest, k)
  {
    OffsetCons(p, rest, k);
    var o' := Offset(rest, k - 1);
    MatchAtShift(s, term, d, o');
    assert ([p] + rest)[k] == rest[k - 1];
    if rest[k - 1].Marked? {
      assert s[d..][o'..o' + |term|] == s[d + o'..d + o' + |term|];
    } else {
      assert s[d..][o'] == s[d + o'];
    }
  }

  /**
    The substitution is the left-to-right scan of `re.sub`: every piece
    fits its offset, so the marked pieces are exactly the occurrences the
    scan reaches and a plain character is left only where none starts.
   */
  lemma {:induction false} SubPieceAt(s: string, term: string, k: nat)
    requires term != [] && k < |Sub(s, term)|
    ensures PieceFits(s, term, Sub(s, term), k)
    decreases |s|
  {
    assert s != [];
    var ps := Sub(s, term);
    if MatchAt(s, term, 0) {
      var n := |term|;
      var rest := Sub(s[n..], term);
      assert ps == [Marked(s[..n])] + rest;
      if k == 0 {
        assert ps[..0] == [];
      } else {
        SubPieceAt(s[n..], term, k - 1);
        ShiftPiece(s, term, n, Marked(s[..n]), rest, k);
      }
    } else {
      var rest := Sub(s[1..], term);
      assert ps == [Plain([s[0]])] + rest;
      if k == 0 {
        assert ps[..0] == [];
      } else {
        SubPieceAt(s[1..], term, k - 1);
        ShiftPiece(s, term, 1, Plain([s[0]]), rest, k);
      }
    }
  }

  /** The pieces of the substitution tile its input: every position lies in some piece. */
  lemma {:induction false} SubCovering(s: string, term: string, j: nat) returns (k: nat)
    requires term != [] && j < |s|
    ensures k < |Sub(s, term)|
    ensures Offset(Sub(s, term), k) <= j < Offset(Sub(s, term), k) + |Sub(s, term)[k].text|
    decreases |s|
  {
    var ps := Sub(s, term);
    var n := |term|;
    if MatchAt(s, term, 0) {
      var rest := Sub(s[n..], term);
      assert ps == [Marked(s[..n])] + rest;
      if j < n {
        k := 0;
        assert ps[..0] == [];
      } else {
        var k' := SubCovering(s[n..], term, j - n);
        k := k' + 1;
        OffsetCons(Marked(s[..n]), rest, k);
        assert ps[k] == rest[k'];
      }
    } else {
      var rest := Sub(s[1..], term);
      assert ps == [Plain([s[0]])] + rest;
      if j == 0 {
        k := 0;
        assert ps[..0] == [];
      } else {
        var k' := SubCovering(s[1..], term, j - 1);
        k := k' + 1;
        OffsetCons(Plain([s[0]]), rest, k);
        assert ps[k] == rest[k'];
      }
    }
  }

  /**
    No occurrence is skipped: every occurrence of the term lies inside a
    marked piece, either as that piece or overlapping one found further
    left, since occurrences are marked without overlap.
   */
  lemma SubMarksEveryOccurrence(s: string, term: string, j: nat)
    requires term != [] && MatchAt(s, term, j)
    ensures exists k :: 0 <= k < |Sub(s, term)| && Sub(s, term)[k].Marked?
                        && Offset(Sub(s, term), k) <= j < Offset(Sub(s, term), k) + |term|
  {
    var k := SubCovering(s, term, j);
    SubPieceAt(s, term, k);
  }

  /** Piece `i` of the replacement as written: a marked piece escaped once more, a plain one kept. */
  lemma {:induction false} EscapeMarkedAt(ps: seq<Piece>, i: nat)
    requires i < |ps|
    ensures EscapeMarked(ps)[i] == if ps[i].Marked? then Marked(Escape(ps[i].text)) else ps[i]
    decreases |ps|
  {
    if i > 0 {
      EscapeMarkedAt(ps[1..], i - 1);
    }
  }

  /**
    `highlight` as written, piece by piece: with `e` the escaped text,
    piece `k` of the output comes from piece `k` of the substitution over
    `e`, which fits its offset in `e` (the occurrence of the term starting
    there, or a single character at which none starts); a marked piece is
    escaped once more, a plain one is kept.
   */
  lemma HighlightPieceAt(text: string, term: string, k: nat)
    requires text != [] && term != [] && k < |HighlightPieces(text, term)|
    ensures k < |Sub(Escape(text), term)| && PieceFits(Escape(text), term, Sub(Escape(text), term), k)
    ensures var p := Sub(Escape(text), term)[k];
            HighlightPieces(text, term)[k] == if p.Marked? then Marked(Escape(p.text)) else p
  {
    var e := Escape(text);
    var ps := Sub(e, term);
    assert HighlightPieces(text, term) == EscapeMarked(ps);
    SubPieceAt(e, term, k);
    EscapeMarkedAt(ps, k);
  }

  /** `highlight` as written marks every occurrence of the term in the escaped text, without overlap. */
  lemma HighlightMarksEveryOccurrence(text: string, term: string, j: nat)
    requires text != [] && term != [] && MatchAt(Escape(text), term, j)
    ensures exists k :: 0 <= k < |HighlightPieces(text, term)| && HighlightPieces(text, term)[k].Marked?
                        && Offset(Sub(Escape(text), term), k) <= j < Offset(Sub(Escape(text), term), k) + |term|
  {
    SubMarksEveryOccurrence(Escape(text), term, j);
    var ps := Sub(Escape(text), term);
    var k :| 0 <= k < |ps| && ps[k].Marked? && Offset(ps, k) <= j < Offset(ps, k) + |term|;
    assert HighlightPieces(text, term)[k].Marked?;
  }

  /** Pieces without a mark render as their own text. */
  lemma {:induction false} RenderUnmarked(ps: seq<Piece>)
    requires !HasMark(ps)
    ensures Render(ps) == Visible(ps)
    decreases |ps|
  {
    if ps != [] {
      assert !HasMark(ps[1..]) by {
        forall i | 0 <= i < |ps[1..]| ensures !ps[1..][i].Marked? { assert ps[1..][i] == ps[i + 1]; }
      }
      RenderUnmarked(ps[1..]);
    }
  }

  /** Escaping the marked pieces keeps every piece safe when the plain ones were. */
  lemma {:induction false} EscapeMarkedSafe(ps: seq<Piece>)
    requires AllSafe(ps)
    ensures AllSafe(EscapeMarked(ps))
    decreases |ps|
  {
    if ps != [] {
      EscapeSafe(ps[0].text);
      assert AllSafe(ps[1..]) by {
        forall i | 0 <= i < |ps[1..]| ensures Safe(ps[1..][i].text) { assert ps[1..][i] == ps[i + 1]; }
      }
      EscapeMarkedSafe(ps[1..]);
      var r := EscapeMarked(ps);
      forall i | 0 <= i < |r| ensures Safe(r[i].text) {
        if i > 0 { assert r[i] == EscapeMarked(ps[1..])[i - 1]; }
      }
    }
  }

  /** Unmarked pieces are left as they are by `EscapeMarked`. */
  lemma {:induction false} EscapeMarkedUnmarked(ps: seq<Piece>)
    requires !HasMark(ps)
    ensures EscapeMarked(ps) == ps
    decreases |ps|
  {
    if ps != [] {
      assert !HasMark(ps[1..]) by {
        forall i | 0 <= i < |ps[1..]| ensures !ps[1..][i].Marked? { assert ps[1..][i] == ps[i + 1]; }
      }
      EscapeMarkedUnmarked(ps[1..]);
    }
  }

  /**
    `highlight` is injection-safe: its output is the rendering of pieces
    none of which holds a raw `<`, `>`, `"` or `'`, so such characters
    appear only in the `<mark>` tags it inserts. With an empty text or an
    empty term it is just the escaped text.
   */
  lemma HighlightSafe(text: string, term: string)
    ensures AllSafe(HighlightPieces(text, term))
    ensures text == [] || term == [] ==> Highlight(text, term) == Escape(text)
  {
    EscapeSafe(text);
    if text != [] && term != [] {
      SubSafe(Escape(text), term);
      EscapeMarkedSafe(Sub(Escape(text), term));
    } else {
      assert Render([Plain(Escape(text))]) == Escape(text) + Render([]);
    }
  }

  /**
    `highlight` inserts a mark exactly when the term occurs, ignoring case,
    in the escaped text; when it does not, the output is the escaped text.
   */
  lemma HighlightMarksIffOccurs(text: string, term: string)
    ensures HasMark(HighlightPieces(text, term)) <==> text != [] && term != [] && ContainsCI(Escape(text), term)
    ensures !(text != [] && term != [] && ContainsCI(Escape(text), term)) ==> Highlight(text, term) == Escape(text)
  {
    if text != [] && term != [] {
      var ps := Sub(Escape(text), term);
      SubMarksIffOccurs(Escape(text), term);
      assert HasMark(EscapeMarked(ps)) <==> HasMark(ps) by {
        if HasMark(ps) {
          var i :| 0 <= i < |ps| && ps[i].Marked?;
          assert EscapeMarked(ps)[i].Marked?;
        }
      }
      if !ContainsCI(Escape(text), term) {
        EscapeMarkedUnmarked(ps);
        RenderUnmarked(ps);
        SubVisible(Escape(text), term);
      }
    } else {
      assert !HasMark([Plain(Escape(text))]);
      assert Render([Plain(Escape(text))]) == Escape(text) + Render([]);
    }
  }

  // ---------------------------------------------------------------------
  // highlight as evidently intended

  /** Escape every piece. */
  function EscapeAll(ps: seq<Piece>): (r: seq<Piece>)
    ensures |r| == |ps|
    ensures forall i :: 0 <= i < |ps| ==> r[i].Marked? == ps[i].Marked?
    decreases |ps|
  {
    if ps == [] then []
    else [if ps[0].Marked? then Marked(Escape(ps[0].text)) else Plain(Escape(ps[0].text))] + EscapeAll(ps[1..])
  }

  /** `highlight` with the term searched in the original text and each piece escaped afterwards. */
  function HighlightFixedPieces(text: string, term: string): seq<Piece>
  {
    if text == [] || term == [] then [Plain(Escape(text))]
    else EscapeAll(Sub(text, term))
  }

  function HighlightFixed(text: string, term: string): string
  {
    Render(HighlightFixedPieces(text, term))
  }

  lemma {:induction false} EscapeAllVisible(ps: seq<Piece>)
    ensures Visible(EscapeAll(ps)) == Escape(Visible(ps))
    ensures AllSafe(EscapeAll(ps))
    decreases |ps|
  {
    if ps != [] {
      EscapeAllVisible(ps[1..]);
      EscapeAppend(ps[0].text, Visible(ps[1..]));
      EscapeSafe(ps[0].text);
      var r := EscapeAll(ps);
      forall i | 0 <= i < |r| ensures Safe(r[i].text) {
        if i > 0 { assert r[i] == EscapeAll(ps[1..])[i - 1]; }
      }
    }
  }

  /**
    The corrected `highlight` shows exactly the original text: with the
    marks taken out its output is the escaped text, which the browser reads
    back as the text itself. It is injection-safe, and it marks something
    exactly when the term occurs in the text.
   */
  lemma HighlightFixedCorrect(text: string, term: string)
    ensures Visible(HighlightFixedPieces(text, term)) == Escape(text)
    ensures Unescape(Visible(HighlightFixedPieces(text, term))) == text
    ensures AllSafe(HighlightFixedPieces(text, term))
    ensures HasMark(HighlightFixedPieces(text, term)) <==> text != [] && term != [] && ContainsCI(text, term)
  {
    UnescapeEscape(text);
    EscapeSafe(text);
    if text != [] && term != [] {
      var ps := Sub(text, term);
      EscapeAllVisible(ps);
      SubVisible(text, term);
      SubMarksIffOccurs(text, term);
      assert HasMark(EscapeAll(ps)) <==> HasMark(ps) by {
        if HasMark(ps) {
          var i :| 0 <= i < |ps| && ps[i].Marked?;
          assert EscapeAll(ps)[i].Marked?;
        }
      }
    } else {
      assert Visible([Plain(Escape(text))]) == Escape(text);
      assert !HasMark([Plain(Escape(text))]);
    }
  }

  /**
    The corrected `highlight` marks every occurrence of the term in the
    original text, without overlap: each lies inside a marked piece of
    the substitution over the text, and that piece stays marked.
   */
  lemma HighlightFixedMarksEveryOccurrence(text: string, term: string, j: nat)
    requires term != [] && MatchAt(text, term, j)
    ensures exists k :: 0 <= k < |HighlightFixedPieces(text, term)| && HighlightFixedPieces(text, term)[k].Marked?
                        && Offset(Sub(text, term), k) <= j < Offset(Sub(text, term), k) + |term|
  {
    SubMarksEveryOccurrence(text, term, j);
    var ps := Sub(text, term);
    var k :| 0 <= k < |ps| && ps[k].Marked? && Offset(ps, k) <= j < Offset(ps, k) + |term|;
    assert text != [];
    assert HighlightFixedPieces(text, term)[k].Marked?;
  }

  /** The substitution of `&` in the escaped text `&amp;` marks only the entity's first character. */
  lemma SubOfEscapedAmpersand()
    ensures Sub("&amp;", "&") == [Marked("&"), Plain("a"), Plain("m"), Plain("p"), Plain(";")]
  {
    assert Lower("&") == "&";
    assert ";"[1..] == [];
    assert Sub(";", "&") == [Plain(";")];
    assert "p;"[1..] == ";";
    assert Sub("p;", "&") == [Plain("p"), Plain(";")];
    assert "mp;"[1..] == "p;";
    assert Sub("mp;", "&") == [Plain("m"), Plain("p"), Plain(";")];
    assert "amp;"[1..] == "mp;";
    assert Sub("amp;", "&") == [Plain("a"), Plain("m"), Plain("p"), Plain(";")];
    assert "&amp;"[..1] == "&" && "&amp;"[1..] == "amp;";
  }

  lemma EscapeAmpersand()
    ensures Escape("&") == "&amp;"
  {
    assert "&"[1..] == [];
  }

  /** The browser reads `&amp;amp;` as `&amp;`. */
  lemma UnescapeDoubleEscaped()
    ensures Unescape("&amp;amp;") == "&amp;"
  {
    var v := "&amp;amp;";
    assert v == "&amp;" + "amp;";
    UnescapeAmp("amp;");
    assert "amp;" == ['a'] + "mp;" && "mp;" == ['m'] + "p;" && "p;" == ['p'] + ";" && ";" == [';'] + [];
    UnescapePlain(';', []);
    UnescapePlain('p', ";");
    UnescapePlain('m', "p;");
    UnescapePlain('a', "mp;");
  }

  /** The pieces `highlight` builds for the text `&` and the term `&`. */
  lemma HighlightAmpersandPieces()
    ensures HighlightPieces("&", "&") == [Marked("&amp;"), Plain("a"), Plain("m"), Plain("p"), Plain(";")]
  {
    EscapeAmpersand();
    SubOfEscapedAmpersand();
    var tail := [Plain("a"), Plain("m"), Plain("p"), Plain(";")];
    var ps := [Marked("&")] + tail;
    assert ps == [Marked("&"), Plain("a"), Plain("m"), Plain("p"), Plain(";")];
    assert HighlightPieces("&", "&") == EscapeMarked(ps);
    EscapeMarkedUnmarked(tail);
    assert ps[0].Marked? && ps[1..] == tail;
  }

  /** Rendering and the visible text both work piece by piece from the front. */
  lemma PiecesCons(p: Piece, ps: seq<Piece>)
    ensures Visible([p] + ps) == p.text + Visible(ps)
    ensures p.Plain? ==> Render([p] + ps) == p.text + Render(ps)
    ensures p.Marked? ==> Render([p] + ps) == "<mark>" + p.text + "</mark>" + Render(ps)
  {
    assert ([p] + ps)[1..] == ps;
  }

  /** The unmarked rest of the ampersand example renders as `amp;`. */
  lemma AmpersandTail()
    ensures Render([Plain("a"), Plain("m"), Plain("p"), Plain(";")]) == "amp;"
    ensures Visible([Plain("a"), Plain("m"), Plain("p"), Plain(";")]) == "amp;"
  {
    PiecesCons(Plain(";"), []);
    PiecesCons(Plain("p"), [Plain(";")]);
    PiecesCons(Plain("m"), [Plain("p"), Plain(";")]);
    PiecesCons(Plain("a"), [Plain("m"), Plain("p"), Plain(";")]);
  }

  /** The pieces of the ampersand example render and show as below. */
  lemma AmpersandPiecesText()
    ensures Render([Marked("&amp;"), Plain("a"), Plain("m"), Plain("p"), Plain(";")]) == "<mark>&amp;</mark>amp;"
    ensures Visible([Marked("&amp;"), Plain("a"), Plain("m"), Plain("p"), Plain(";")]) == "&amp;amp;"
  {
    AmpersandTail();
    var tail := [Plain("a"), Plain("m"), Plain("p"), Plain(";")];
    PiecesCons(Marked("&amp;"), tail);
    assert [Marked("&amp;")] + tail == [Marked("&amp;"), Plain("a"), Plain("m"), Plain("p"), Plain(";")];
  }

  /**
    The discrepancy: searching for `&` in the text `&` matches the `&` of
    the entity `&amp;`, and the escaped match shows as `&amp;amp;`, which
    the browser reads as `&amp;` rather than `&`. The corrected version
    shows `&`.
   */
  lemma HighlightDoubleEscapes()
    ensures Highlight("&", "&") == "<mark>&amp;</mark>amp;"
    ensures Unescape(Visible(HighlightPieces("&", "&"))) == "&amp;"
  {
    HighlightAmpersandPieces();
    AmpersandPiecesText();
    UnescapeDoubleEscaped();
  }

  /** The corrected version marks the ampersand itself. */
  lemma HighlightFixedAmpersand()
    ensures HighlightFixed("&", "&") == "<mark>&amp;</mark>"
  {
    EscapeAmpersand();
    assert Lower("&") == "&" && "&"[..1] == "&" && "&"[1..] == [];
    assert Sub("&", "&") == [Marked("&")];
    assert HighlightFixedPieces("&", "&") == [Marked("&amp;")];
  }

  // ---------------------------------------------------------------------
  // is_owner

  /** The viewing user; an anonymous user has no id. */
  datatype Viewer = Viewer(id: Option<Models.UserId>)

  /**
    `is_owner`: `author` is the object's author id when the object has an
    author field (`None` when it has none); `user` is `None` when no user
    is given.
   */
  function IsOwner(author: Option<Models.UserId>, user: Option<Viewer>): bool
  {
    if author.None? then false
    else user.Some? && user.value.id == author
  }

  // ---------------------------------------------------------------------
  // basename

  /** The `/`-separated fields of a path; there is always at least one. */
  function Split(s: string): (parts: seq<string>)
    ensures |parts| >= 1
    ensures forall i :: 0 <= i < |parts| ==> '/' !in parts[i]
    decreases |s|
  {
    if s == [] then [[]]
    else if s[|s| - 1] == '/' then Split(s[..|s| - 1]) + [[]]
    else
      var ps := Split(s[..|s| - 1]);
      ps[..|ps| - 1] + [ps[|ps| - 1] + [s[|s| - 1]]]
  }

  /** The fields glued back together with `/`. */
  function Join(parts: seq<string>): string
    requires |parts| >= 1
    decreases |parts|
  {
    if |parts| == 1 then parts[0] else Join(parts[..|parts| - 1]) + "/" + parts[|parts| - 1]
  }

  /** A field that names nothing: empty (from a doubled or trailing `/`) or `.`. */
  predicate Ignored(field: string)
  {
    field == "" || field == "."
  }

  /** The last field that names something. */
  function LastName(parts: seq<string>): string
    decreases |parts|
  {
    if parts == [] then ""
    else if !Ignored(parts[|parts| - 1]) then parts[|parts| - 1]
    else LastName(parts[..|parts| - 1])
  }

  /** `basename`: the final component of a path or URL, as a POSIX path object names it. */
  function Basename(path: string): string
  {
    if path == [] then "" else LastName(Split(path))
  }

  lemma {:induction false} JoinSplit(s: string)
    ensures Join(Split(s)) == s
    decreases |s|
  {
    if s != [] {
      var init := s[..|s| - 1];
      var c := s[|s| - 1];
      JoinSplit(init);
      var ps := Split(init);
      if c == '/' {
        assert Split(s) == ps + [[]];
        assert (ps + [[]])[..|ps|] == ps;
      } else {
        var qs := ps[..|ps| - 1] + [ps[|ps| - 1] + [c]];
        assert Split(s) == qs;
        if |ps| == 1 {
          assert Join(qs) == ps[0] + [c];
        } else {
          assert qs[..|qs| - 1] == ps[..|ps| - 1];
          assert Join(ps) == Join(ps[..|ps| - 1]) + "/" + ps[|ps| - 1];
        }
      }
      assert s == init + [c];
    }
  }

  /** Appending `/` and a slash-free name adds exactly that name as the last field. */
  lemma {:induction false} SplitAppendName(dir: string, name: string)
    requires '/' !in name
    ensures Split(dir + "/" + name) == Split(dir) + [name]
    decreases |name|
  {
    if name == [] {
      assert dir + "/" + name == dir + "/";
      assert (dir + "/")[..|dir + "/"| - 1] == dir;
    } else {
      var init := name[..|name| - 1];
      var c := name[|name| - 1];
      assert '/' !in init by {
        forall i | 0 <= i < |init| ensures init[i] != '/' { assert init[i] == name[i]; }
      }
      SplitAppendName(dir, init);
      var s := dir + "/" + name;
      assert s[..|s| - 1] == dir + "/" + init;
      assert s[|s| - 1] == c && c != '/';
      var ps := Split(dir) + [init];
      assert Split(s) == ps[..|ps| - 1] + [ps[|ps| - 1] + [c]];
      assert ps[..|ps| - 1] == Split(dir) && ps[|ps| - 1] == init;
      assert init + [c] == name;
    }
  }

  /** Splitting a join of slash-free fields gives the fields back. */
  lemma {:induction false} SplitJoin(parts: seq<string>)
    requires |parts| >= 1
    requires forall i :: 0 <= i < |parts| ==> '/' !in parts[i]
    ensures Split(Join(parts)) == parts
    decreases |parts|
  {
    if |parts| == 1 {
      SlashFree(parts[0]);
    } else {
      var init := parts[..|parts| - 1];
      SplitJoin(init);
      SplitAppendName(Join(init), parts[|parts| - 1]);
      assert init + [parts[|parts| - 1]] == parts;
    }
  }

  /** A string without `/` is a single field. */
  lemma {:induction false} SlashFree(s: string)
    requires '/' !in s
    ensures Split(s) == [s]
    decreases |s|
  {
    if s != [] {
      var init := s[..|s| - 1];
      assert '/' !in init by {
        forall i | 0 <= i < |init| ensures init[i] != '/' { assert init[i] == s[i]; }
      }
      SlashFree(init);
      assert init + [s[|s| - 1]] == s;
    }
  }

  /**
    `basename` is the last field of the path that names something: it is
    empty exactly when no field does (in particular for an empty input),
    otherwise it is such a field and every field after it is empty or `.`.
    A slash-free name is its own basename, and so is the name in `dir/name`.
   */
  lemma BasenameSpec(path: string, dir: string, name: string)
    ensures Basename(path) == "" <==> path == [] || forall i :: 0 <= i < |Split(path)| ==> Ignored(Split(path)[i])
    ensures Basename(path) != "" ==>
              && !Ignored(Basename(path))
              && exists k :: 0 <= k < |Split(path)| && Split(path)[k] == Basename(path)
                             && forall j :: k < j < |Split(path)| ==> Ignored(Split(path)[j])
    ensures '/' !in Basename(path)
    ensures '/' !in path && !Ignored(path) ==> Basename(path) == path
    ensures '/' !in name && !Ignored(name) ==> Basename(dir + "/" + name) == name
  {
    LastNameSpec(Split(path));
    LastNameIsField(Split(path));
    if '/' !in path {
      SlashFree(path);
    }
    if '/' !in name && !Ignored(name) {
      SplitAppendName(dir, name);
    }
  }

  /**
    `LastName` picks the last field that names something: it is empty
    exactly when no field does, and otherwise it is a field that names
    something with only ignored fields after it.
   */
  lemma {:induction false} LastNameSpec(parts: seq<string>)
    ensures LastName(parts) == "" <==> forall i :: 0 <= i < |parts| ==> Ignored(parts[i])
    ensures LastName(parts) != "" ==>
              && !Ignored(LastName(parts))
              && exists k :: 0 <= k < |parts| && parts[k] == LastName(parts)
                             && forall j :: k < j < |parts| ==> Ignored(parts[j])
    decreases |parts|
  {
    if parts != [] {
      var n := |parts| - 1;
      var init := parts[..n];
      if Ignored(parts[n]) {
        LastNameSpec(init);
        if LastName(parts) != "" {
          var k :| 0 <= k < |init| && init[k] == LastName(init) && forall j :: k < j < |init| ==> Ignored(init[j]);
          assert parts[k] == init[k];
          assert forall j :: k < j < |parts| ==> Ignored(parts[j]) by {
            forall j | k < j < |parts| ensures Ignored(parts[j]) {
              if j < n { assert parts[j] == init[j]; }
            }
          }
        } else {
          forall i | 0 <= i < |parts| ensures Ignored(parts[i]) {
            if i < n { assert parts[i] == init[i]; }
          }
        }
      } else {
        assert parts[n] == LastName(parts);
      }
    }
  }

  lemma {:induction false} LastNameIsField(parts: seq<string>)
    requires forall i :: 0 <= i < |parts| ==> '/' !in parts[i]
    ensures LastName(parts) == "" || LastName(parts) in parts
    ensures '/' !in LastName(parts)
    decreases |parts|
  {
    if parts != [] && Ignored(parts[|parts| - 1]) {
      LastNameIsField(parts[..|parts| - 1]);
    }
  }

  // ---------------------------------------------------------------------
  // badge_for_status

  const DefaultBadge := "bg-light text-dark"

  /** `badge_for_status`: a lookup with a default, so every input gets a class. */
  function BadgeForStatus(status: string): string
  {
    if status == "open" then "bg-primary"
    else if status == "answered" then "bg-success"
    else if status == "canceled" then "bg-secondary"
    else DefaultBadge
  }

  /**
    The two stored statuses get distinct, non-default badges; `canceled`
    gets its own although no stored status has that value (cancellation is
    a separate flag); everything else gets the default.
   */
  lemma BadgeForStatusTable(v: string)
    ensures BadgeForStatus(Models.StatusValue(Models.Open)) == "bg-primary"
    ensures BadgeForStatus(Models.StatusValue(Models.Answered)) == "bg-success"
    ensures BadgeForStatus("canceled") == "bg-secondary"
    ensures forall s: Models.Status :: Models.StatusValue(s) != "canceled"
    ensures v !in {"open", "answered", "canceled"} ==> BadgeForStatus(v) == DefaultBadge
  {
  }
}
