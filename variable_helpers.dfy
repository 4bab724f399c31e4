/**
 * The placeholder wrapper of src/components/variableHelpers.ts.
 *
 * `convertVariablesToHtml` runs the global regular expression `\{\{(\w+)\}\}` over its input and
 * replaces every match `{{k}}` with the span markup the editor's variable node parses.  The regex
 * is deterministic: `\w+` is greedy and can only be followed by `}`, so at each position there is
 * at most one match.  The model makes the regex's scan explicit: `Parse` walks the input left to
 * right, taking a placeholder where one starts and one literal character otherwise, and `Render`
 * turns the pieces back into text with each placeholder wrapped in its span.
 */
module VariableHelpers {
  import opened Wrappers
  import opened SeqFacts
  import opened Text

  /** One step of the scan: a literal character copied as is, or a matched placeholder's key. */
  datatype Piece = Lit(c: char) | Var(key: string)

  /** The placeholder text `{{k}}`. */
  function Placeholder(k: string): string {
    "{{" + k + "}}"
  }

  /** The fixed start of every generated span after its `<`, up to the opening quote of `data-key`. */
  const SpanOpenRest: string := "span" + " data-type=\"variable\"" + " data-key=\""

  /** The fixed start of every generated span. */
  const SpanOpen: string := "<" + SpanOpenRest

  /** The opening tag of the span generated for key `k`. */
  function SpanHead(k: string): string {
    SpanOpen + k + "\" data-label=\"" + k + "\">"
  }

  /** The markup generated for the placeholder `{{k}}`: key and label are both `k`, and the
      visible text is the placeholder itself. */
  function Span(k: string): string {
    SpanHead(k) + Placeholder(k) + "</span>"
  }

  /** The key of the placeholder that starts `s`, if one does (the regex anchored at one position). */
  function MatchPlaceholder(s: string): (r: Option<string>)
    ensures r.Some? ==> IsKey(r.value) && Placeholder(r.value) <= s
  {
    if |s| >= 2 && s[0] == '{' && s[1] == '{' then
      var k := WordPrefix(s[2..]);
      if |k| > 0 && 4 + |k| <= |s| && s[2 + |k|] == '}' && s[3 + |k|] == '}' then
        assert Placeholder(k) == s[..4 + |k|];
        Some(k)
      else None
    else None
  }

  /** Whenever a placeholder starts `s`, the scan finds exactly that placeholder. */
  lemma MatchPlaceholderComplete(s: string, k: string)
    requires IsKey(k) && Placeholder(k) <= s
    ensures MatchPlaceholder(s) == Some(k)
  {
    var rest := s[2 + |k|..];
    assert s[2..] == k + rest;
    WordPrefixOf(k, rest);
  }

  /** The text a piece stood for in the input. */
  function PieceText(p: Piece): string {
    match p
    case Lit(c) => [c]
    case Var(k) => Placeholder(k)
  }

  /** The input text the pieces came from. */
  function Unparse(ps: seq<Piece>): string {
    if ps == [] then [] else PieceText(ps[0]) + Unparse(ps[1..])
  }

  /**
   * The left-to-right, non-overlapping scan of the global regex: a placeholder is taken where one
   * starts, otherwise one character is copied and the scan moves on.
   */
  function Parse(s: string): seq<Piece>
    decreases |s|
  {
    if s == [] then []
    else match MatchPlaceholder(s)
      case Some(k) => [Var(k)] + Parse(s[|Placeholder(k)|..])
      case None => [Lit(s[0])] + Parse(s[1..])
  }

  /** The pieces spell the input back exactly. */
  lemma {:induction false} ParseSpellsInput(s: string)
    ensures Unparse(Parse(s)) == s
    decreases |s|
  {
    if s != [] {
      match MatchPlaceholder(s)
      case Some(k) =>
        var rest := s[|Placeholder(k)|..];
        ParseSpellsInput(rest);
        UnparsePlaceholderStep(s, k, rest);
      case None =>
        ParseSpellsInput(s[1..]);
        UnparseLiteralStep(s);
    }
  }

  lemma UnparsePlaceholderStep(s: string, k: string, rest: string)
    requires s != [] && MatchPlaceholder(s) == Some(k) && rest == s[|Placeholder(k)|..]
    requires Unparse(Parse(rest)) == rest
    ensures Unparse(Parse(s)) == s
  {
    assert Parse(s) == [Var(k)] + Parse(rest);
    DropCons(Var(k), Parse(rest));
    PrefixRest(Placeholder(k), s);
  }

  lemma UnparseLiteralStep(s: string)
    requires s != [] && MatchPlaceholder(s).None?
    requires Unparse(Parse(s[1..])) == s[1..]
    ensures Unparse(Parse(s)) == s
  {
    assert Parse(s) == [Lit(s[0])] + Parse(s[1..]);
    DropCons(Lit(s[0]), Parse(s[1..]));
    ConsSplit(s);
  }

  /** Every key the scan takes is one or more word characters, so no quote or angle bracket ever
      reaches the generated attributes. */
  lemma {:induction false} ParseKeysAreWords(s: string)
    ensures forall i :: 0 <= i < |Parse(s)| && Parse(s)[i].Var? ==> IsKey(Parse(s)[i].key)
    decreases |s|
  {
    if s != [] {
      var ps := Parse(s);
      var rest := match MatchPlaceholder(s) case Some(k) => s[|Placeholder(k)|..] case None => s[1..];
      ParseKeysAreWords(rest);
      assert ps[1..] == Parse(rest);
      forall i | 1 <= i < |ps| ensures ps[i] == Parse(rest)[i - 1] { }
    }
  }

  /** The markup a piece becomes. */
  function RenderPiece(p: Piece): string {
    match p
    case Lit(c) => [c]
    case Var(k) => Span(k)
  }

  /** The markup the pieces become. */
  function Render(ps: seq<Piece>): string {
    if ps == [] then [] else RenderPiece(ps[0]) + Render(ps[1..])
  }

  /** `convertVariablesToHtml`: every placeholder wrapped in its span, all other text copied.
      The output is never shorter than the input. */
  function ConvertVariablesToHtml(s: string): (r: string)
    ensures |r| >= |s|
  {
    WrappedLength(s);
    Render(Parse(s))
  }

  /** Wrapping lengthens the text exactly when there is a placeholder to wrap. */
  lemma WrappedLength(s: string)
    ensures |Render(Parse(s))| >= |s|
    ensures |Render(Parse(s))| > |s| <==> ContainsPlaceholder(s)
  {
    ParseSpellsInput(s);
    RenderLonger(Parse(s));
    if ContainsPlaceholder(s) {
      ParseFindsPlaceholder(s);
    } else {
      ParsePlaceholderFree(s);
      RenderLits(s);
    }
  }

  // ---------------------------------------------------------------------------------------------
  // Facts about the pieces

  /** Each character of `s` as a literal piece. */
  function Lits(s: string): (ps: seq<Piece>)
    ensures |ps| == |s|
    ensures forall i :: 0 <= i < |s| ==> ps[i] == Lit(s[i])
  {
    seq(|s|, i requires 0 <= i < |s| => Lit(s[i]))
  }

  lemma {:induction false} RenderAppend(a: seq<Piece>, b: seq<Piece>)
    ensures Render(a + b) == Render(a) + Render(b)
    decreases |a|
  {
    if a != [] {
      RenderAppend(a[1..], b);
      RenderAppendStep(a, b);
      AppendAssoc(RenderPiece(a[0]), Render(a[1..]), Render(b));
    } else {
      assert a + b == b;
    }
  }

  /** The first piece of `a + b` is rendered in front of the rest. */
  lemma RenderAppendStep(a: seq<Piece>, b: seq<Piece>)
    requires a != []
    ensures Render(a + b) == RenderPiece(a[0]) + Render(a[1..] + b)
  {
    ConsAppend(a, b);
  }

  lemma {:induction false} RenderLits(s: string)
    ensures Render(Lits(s)) == s
    decreases |s|
  {
    if s != [] {
      assert Lits(s)[1..] == Lits(s[1..]);
      RenderLits(s[1..]);
    }
  }

  /** `{{k}}` occurs in `s` at position `i`. */
  predicate OccursAt(s: string, i: nat, k: string) {
    i <= |s| && Placeholder(k) <= s[i..]
  }

  /** `s` has a substring of the form `{{` word characters `}}`. */
  ghost predicate ContainsPlaceholder(s: string) {
    exists i: nat, k: string :: IsKey(k) && OccursAt(s, i, k)
  }

  lemma ContainsPlaceholderTail(s: string)
    requires s != [] && !ContainsPlaceholder(s)
    ensures !ContainsPlaceholder(s[1..])
  {
    forall i: nat, k: string | IsKey(k) && OccursAt(s[1..], i, k)
      ensures OccursAt(s, i + 1, k)
    {
      assert s[1..][i..] == s[i + 1..];
    }
  }

  /** Text without a placeholder is scanned as literals only. */
  lemma {:induction false} ParsePlaceholderFree(s: string)
    requires !ContainsPlaceholder(s)
    ensures Parse(s) == Lits(s)
    decreases |s|
  {
    if s != [] {
      if MatchPlaceholder(s).Some? {
        assert OccursAt(s, 0, MatchPlaceholder(s).value);
      }
      ContainsPlaceholderTail(s);
      ParsePlaceholderFree(s[1..]);
      assert Lits(s) == [Lit(s[0])] + Lits(s[1..]);
    }
  }

  /** Text with a placeholder is scanned into at least one placeholder piece. */
  lemma {:induction false} ParseFindsPlaceholder(s: string)
    requires ContainsPlaceholder(s)
    ensures exists j :: 0 <= j < |Parse(s)| && Parse(s)[j].Var?
    decreases |s|
  {
    var i: nat, k: string :| IsKey(k) && OccursAt(s, i, k);
    if MatchPlaceholder(s).None? {
      if i == 0 {
        MatchPlaceholderComplete(s, k);
      }
      OccursLater(s, i, k);
      ParseFindsPlaceholder(s[1..]);
      var j :| 0 <= j < |Parse(s[1..])| && Parse(s[1..])[j].Var?;
      DropCons(Lit(s[0]), Parse(s[1..]));
      assert Parse(s)[j + 1] == Parse(s[1..])[j];
    } else {
      assert Parse(s)[0].Var?;
    }
  }

  /** An occurrence past the first character is an occurrence in the rest. */
  lemma OccursLater(s: string, i: nat, k: string)
    requires 0 < i && OccursAt(s, i, k)
    ensures OccursAt(s[1..], i - 1, k)
  {
    assert s[1..][i - 1..] == s[i..];
  }

  /** Wrapping never shortens, and strictly lengthens as soon as one placeholder is wrapped. */
  lemma {:induction false} RenderLonger(ps: seq<Piece>)
    ensures |Render(ps)| >= |Unparse(ps)|
    ensures (exists j :: 0 <= j < |ps| && ps[j].Var?) ==> |Render(ps)| > |Unparse(ps)|
    decreases |ps|
  {
    if ps != [] {
      RenderLonger(ps[1..]);
      if exists j :: 0 <= j < |ps| && ps[j].Var? {
        var j :| 0 <= j < |ps| && ps[j].Var?;
        if j > 0 {
          assert ps[1..][j - 1].Var?;
        }
      }
    }
  }

  // ---------------------------------------------------------------------------------------------
  // Properties of convertVariablesToHtml

  /** A string is returned unchanged exactly when it contains no placeholder. */
  lemma ConvertUnchangedIff(s: string)
    ensures ConvertVariablesToHtml(s) == s <==> !ContainsPlaceholder(s)
  {
    if ContainsPlaceholder(s) {
      ParseSpellsInput(s);
      ParseFindsPlaceholder(s);
      RenderLonger(Parse(s));
    } else {
      ParsePlaceholderFree(s);
      RenderLits(s);
    }
  }

  /** Past its first two characters a placeholder holds no opening brace. */
  lemma PlaceholderInnerNotBrace(k: string, p: nat)
    requires IsKey(k) && 2 <= p < |Placeholder(k)|
    ensures Placeholder(k)[p] != '{'
  {
    if p < 2 + |k| {
      assert Placeholder(k)[p] == k[p - 2];
    }
  }

  /** No placeholder starts inside placeholder-free text, even with a placeholder right after it:
      a match reaching into `{{k}}` would need a word character where that brace stands. */
  lemma NoMatchBeforePlaceholder(a: string, k: string, b: string)
    requires a != [] && !ContainsPlaceholder(a) && IsKey(k)
    ensures MatchPlaceholder(a + Placeholder(k) + b).None?
  {
    var s := a + Placeholder(k) + b;
    forall k' | IsKey(k') && |Placeholder(k')| <= |a| ensures !(Placeholder(k') <= s) {
      assert !OccursAt(a, 0, k');
      assert a[0..] == a;
      assert s[..|Placeholder(k')|] == a[..|Placeholder(k')|];
    }
    var p := if |a| >= 2 then |a| else 2;
    assert s[p] == '{';
    forall k' | IsKey(k') && |Placeholder(k')| > |a| ensures !(Placeholder(k') <= s) {
      PlaceholderInnerNotBrace(k', p);
    }
  }

  /**
   * Leftmost, non-overlapping replacement: when the text before a placeholder holds none, that
   * text is copied verbatim, the placeholder is taken, and the scan resumes right after it.
   */
  lemma {:induction false} ParseSplit(a: string, k: string, b: string)
    requires !ContainsPlaceholder(a) && IsKey(k)
    ensures Parse(a + Placeholder(k) + b) == Lits(a) + [Var(k)] + Parse(b)
    decreases |a|
  {
    var s := a + Placeholder(k) + b;
    if a == [] {
      assert s == Placeholder(k) + b;
      ParsePlaceholderFirst(k, b);
    } else {
      NoMatchBeforePlaceholder(a, k, b);
      ContainsPlaceholderTail(a);
      assert s[1..] == a[1..] + Placeholder(k) + b;
      ParseSplit(a[1..], k, b);
      assert s[0] == a[0];
      assert Parse(s) == [Lit(a[0])] + Parse(s[1..]);
      LitsCons(a);
    }
  }

  lemma LitsCons(a: string)
    requires a != []
    ensures Lits(a) == [Lit(a[0])] + Lits(a[1..])
  {
  }

  /** A placeholder at the start is taken whole, and the scan resumes after it. */
  lemma ParsePlaceholderFirst(k: string, b: string)
    requires IsKey(k)
    ensures Parse(Placeholder(k) + b) == [Var(k)] + Parse(b)
  {
    var s := Placeholder(k) + b;
    MatchPlaceholderComplete(s, k);
    assert s[|Placeholder(k)|..] == b;
  }

  /**
   * Leftmost, non-overlapping replacement: when the text before a placeholder holds none, that
   * text is copied verbatim, the placeholder is replaced by its span, and the rest is converted
   * the same way.
   */
  lemma ConvertSplit(a: string, k: string, b: string)
    requires !ContainsPlaceholder(a) && IsKey(k)
    ensures ConvertVariablesToHtml(a + Placeholder(k) + b) == a + Span(k) + ConvertVariablesToHtml(b)
  {
    ParseSplit(a, k, b);
    RenderAround(a, Var(k), Parse(b));
  }

  /** Copied text, one piece, and more pieces are rendered one after the other. */
  lemma RenderAround(a: string, p: Piece, ps: seq<Piece>)
    ensures Render(Lits(a) + [p] + ps) == a + RenderPiece(p) + Render(ps)
  {
    RenderAppend(Lits(a) + [p], ps);
    RenderAppend(Lits(a), [p]);
    RenderLits(a);
    assert Render([p]) == RenderPiece(p) + Render([]);
  }

  /** A lone placeholder `{{k}}` becomes exactly its span. */
  lemma ConvertPlaceholder(k: string)
    requires IsKey(k)
    ensures ConvertVariablesToHtml(Placeholder(k)) == Span(k)
  {
    ParsePlaceholderFirst(k, []);
    assert Placeholder(k) + [] == Placeholder(k);
    assert Render([Var(k)]) == Span(k) + Render([]);
  }

  /** One step of the global replace: the placeholder at the front is wrapped, and the rest of
      the text is converted the same way. */
  lemma ConvertStepPlaceholder(t: string, k: string)
    requires t != [] && MatchPlaceholder(t) == Some(k)
    ensures ConvertVariablesToHtml(t) == Span(k) + ConvertVariablesToHtml(t[|Placeholder(k)|..])
  {
    assert Parse(t) == [Var(k)] + Parse(t[|Placeholder(k)|..]);
    DropCons(Var(k), Parse(t[|Placeholder(k)|..]));
  }

  /** One step of the global replace: with no placeholder at the front the first character is
      copied, and the rest of the text is converted the same way. */
  lemma ConvertStepLiteral(t: string)
    requires t != [] && MatchPlaceholder(t).None?
    ensures ConvertVariablesToHtml(t) == [t[0]] + ConvertVariablesToHtml(t[1..])
  {
    assert Parse(t) == [Lit(t[0])] + Parse(t[1..]);
    DropCons(Lit(t[0]), Parse(t[1..]));
  }

  // ---------------------------------------------------------------------------------------------
  // The inverse: replacing each generated span by its visible text

  /** The key of the generated span that starts `s`, if one does. */
  function MatchSpan(s: string): (r: Option<string>)
    ensures r.Some? ==> IsKey(r.value) && Span(r.value) <= s
  {
    if SpanOpen <= s then
      var k := WordPrefix(s[|SpanOpen|..]);
      if |k| > 0 && Span(k) <= s then Some(k) else None
    else None
  }

  lemma SpanFirst(k: string)
    ensures |Span(k)| > 0 && Span(k)[0] == '<'
  {
    assert Span(k) == SpanOpen + (k + "\" data-label=\"" + k + "\">" + Placeholder(k) + "</span>");
  }

  /** A word key has no `<`, `>`, quote or brace, so its placeholder has no `<` either. */
  lemma KeyHasNoMarkup(k: string)
    requires IsKey(k)
    ensures '<' !in k && '>' !in k && '"' !in k && '{' !in k && '}' !in k
    ensures '<' !in Placeholder(k)
  {
    forall i | 0 <= i < |k| ensures k[i] != '<' && k[i] != '>' && k[i] != '"' && k[i] != '{' && k[i] != '}' {
      assert IsWordChar(k[i]);
    }
  }

  lemma SpanHeadBody(k: string)
    requires IsKey(k)
    ensures SpanHead(k) == ['<'] + SpanHead(k)[1..]
    ensures '<' !in SpanHead(k)[1..]
  {
    var a, b, c := SpanOpenRest, "\" data-label=\"", "\">";
    SpanOpenShape();
    SpanSegments(b, c);
    KeyHasNoMarkup(k);
    TagFreeConcat(a, k, b, c);
    assert SpanHead(k) == ['<'] + (a + k + b + k + c);
  }

  /** The literal segments between and after the key in the opening tag. */
  lemma SpanSegments(labelSeg: string, endSeg: string)
    requires labelSeg == "\" data-label=\"" && endSeg == "\">"
    ensures "\"" + " data-label=\"" == labelSeg && "\"" + ">" == endSeg
    ensures '<' !in labelSeg && '<' !in endSeg
  {
  }

  /** The fixed start opens a tag, and holds no other `<`. */
  lemma SpanOpenShape()
    ensures SpanOpen == ['<'] + SpanOpenRest && |SpanOpenRest| > 0 && SpanOpenRest[0] == 's'
    ensures '<' !in SpanOpenRest
  {
  }

  lemma TagFreeConcat(a: string, k: string, b: string, c: string)
    requires '<' !in a && '<' !in k && '<' !in b && '<' !in c
    ensures '<' !in a + k + b + k + c
  {
  }

  lemma SpanAfterOpen(k: string)
    ensures SpanOpen <= Span(k)
    ensures Span(k)[|SpanOpen|..] == k + ['"'] + Span(k)[|SpanOpen| + |k| + 1..]
  {
    var tail := "\" data-label=\"" + k + "\">" + Placeholder(k) + "</span>";
    assert Span(k) == SpanOpen + (k + tail);
    assert tail == ['"'] + tail[1..];
    assert Span(k)[|SpanOpen|..] == k + tail;
    assert Span(k)[|SpanOpen| + |k| + 1..] == tail[1..];
  }

  /** Whenever a generated span starts `s`, the scan finds exactly that span. */
  lemma MatchSpanComplete(s: string, k: string)
    requires IsKey(k) && Span(k) <= s
    ensures MatchSpan(s) == Some(k)
  {
    SpanAfterOpen(k);
    var n := |SpanOpen|;
    var rest := s[n + |k|..];
    assert s[n..] == k + rest by {
      assert s[n..|Span(k)|] == Span(k)[n..];
      assert s[n..] == s[n..|Span(k)|] + s[|Span(k)|..];
    }
    assert rest[0] == '"';
    WordPrefixOf(k, rest);
  }

  /** Every generated span replaced by its visible text `{{k}}`, all other text copied. */
  function Unwrap(s: string): string
    decreases |s|
  {
    if s == [] then []
    else match MatchSpan(s)
      case Some(k) => Placeholder(k) + Unwrap(s[|Span(k)|..])
      case None => [s[0]] + Unwrap(s[1..])
  }

  /** Converted text starts with `<` wherever the input starts with a placeholder. */
  lemma ConvertStartsTag(t: string)
    ensures t != [] && MatchPlaceholder(t).Some? ==>
      |ConvertVariablesToHtml(t)| > 0 && ConvertVariablesToHtml(t)[0] == '<'
  {
    if t != [] && MatchPlaceholder(t).Some? {
      ConvertStepPlaceholder(t, MatchPlaceholder(t).value);
      SpanFirst(MatchPlaceholder(t).value);
    }
  }

  /** Converted text that begins with `<`-free text `w` comes from input that begins with `w`,
      copied character by character. */
  lemma {:induction false} ConvertPrefixWithoutTag(t: string, w: string)
    requires '<' !in w && w <= ConvertVariablesToHtml(t)
    ensures w <= t && ConvertVariablesToHtml(t) == w + ConvertVariablesToHtml(t[|w|..])
    decreases |w|
  {
    if w == [] {
      assert t[0..] == t;
    } else {
      ConvertFirstLiteral(t, w[0]);
      var h' := ConvertVariablesToHtml(t[1..]);
      PrefixCons(t[0], w, h');
      NotInDrop('<', w);
      ConvertPrefixWithoutTag(t[1..], w[1..]);
      DropDrop(t, |w|);
      ConsPrefix(w, t);
      ConsJoin(t[0], w, h', ConvertVariablesToHtml(t[|w|..]));
    }
  }

  /** Converted text that starts with a character other than `<` starts with a copied character. */
  lemma ConvertFirstLiteral(t: string, c: char)
    requires ConvertVariablesToHtml(t) != [] && ConvertVariablesToHtml(t)[0] == c && c != '<'
    ensures t != [] && ConvertVariablesToHtml(t) == [t[0]] + ConvertVariablesToHtml(t[1..])
  {
    ConvertEmpty();
    ConvertStartsTag(t);
    ConvertStepLiteral(t);
  }

  lemma ConvertEmpty()
    ensures ConvertVariablesToHtml([]) == []
  {
  }

  /** A literal character followed by converted text never starts a generated span: the span's
      visible `{{k}}` would have to come from a placeholder in the input, which would have been
      wrapped itself. */
  lemma NoSpanAfterLiteral(c: char, t: string)
    ensures MatchSpan([c] + ConvertVariablesToHtml(t)).None?
  {
    var h := [c] + ConvertVariablesToHtml(t);
    forall k | IsKey(k) ensures !(Span(k) <= h) {
      SpanHeadBody(k);
      var w := SpanHead(k)[1..];
      NoSpanAfterLiteralStep(t, w, k);
      assert Span(k) == ['<'] + w + Placeholder(k) + "</span>";
      SpanAfterFirst(c, w, Placeholder(k), ConvertVariablesToHtml(t), h, Span(k));
    }
  }

  lemma SpanAfterFirst(c: char, w: string, p: string, h': string, h: string, sp: string)
    requires h == [c] + h' && sp == ['<'] + w + p + "</span>"
    ensures sp <= h ==> w + p <= h'
  {
    if sp <= h {
      assert h[1..] == h';
      assert sp[1..|w + p| + 1] == w + p;
    }
  }

  /** The core of `NoSpanAfterLiteral`: converted text cannot hold `<`-free text followed by a
      placeholder, since the placeholder would have been wrapped. */
  lemma NoSpanAfterLiteralStep(t: string, w: string, k: string)
    requires IsKey(k) && '<' !in w
    ensures !(w + Placeholder(k) <= ConvertVariablesToHtml(t))
  {
    var h := ConvertVariablesToHtml(t);
    if w + Placeholder(k) <= h {
      PrefixSplit(w, Placeholder(k), h);
      ConvertPrefixWithoutTag(t, w);
      PrefixOfAppend(w, ConvertVariablesToHtml(t[|w|..]));
      PlaceholderNeverSurvives(t[|w|..], k);
    }
  }

  /** Converted text never starts with a placeholder: it would have been wrapped. */
  lemma PlaceholderNeverSurvives(u: string, k: string)
    requires IsKey(k)
    ensures !(Placeholder(k) <= ConvertVariablesToHtml(u))
  {
    KeyHasNoMarkup(k);
    if Placeholder(k) <= ConvertVariablesToHtml(u) {
      ConvertPrefixWithoutTag(u, Placeholder(k));
      MatchPlaceholderComplete(u, k);
      ConvertStartsTag(u);
    }
  }

  /** Unwrapping a generated span yields its placeholder, and unwrapping goes on after it. */
  lemma UnwrapAfterSpan(k: string, tail: string)
    requires IsKey(k)
    ensures Unwrap(Span(k) + tail) == Placeholder(k) + Unwrap(tail)
  {
    SpanFirst(k);
    PrefixOfAppend(Span(k), tail);
    MatchSpanComplete(Span(k) + tail, k);
  }

  /** Unwrapping copies a literal character in front of converted text. */
  lemma UnwrapAfterLiteral(c: char, t: string)
    ensures Unwrap([c] + ConvertVariablesToHtml(t)) == [c] + Unwrap(ConvertVariablesToHtml(t))
  {
    NoSpanAfterLiteral(c, t);
    DropCons(c, ConvertVariablesToHtml(t));
  }

  /** Round trip: replacing every generated span by its inner text recovers the input. */
  lemma {:induction false} UnwrapConvert(s: string)
    ensures Unwrap(ConvertVariablesToHtml(s)) == s
    decreases |s|
  {
    if s != [] {
      match MatchPlaceholder(s)
      case Some(k) =>
        var rest := s[|Placeholder(k)|..];
        UnwrapConvert(rest);
        UnwrapPlaceholderStep(s, k, rest);
      case None =>
        UnwrapConvert(s[1..]);
        UnwrapLiteralStep(s);
    }
  }

  lemma UnwrapPlaceholderStep(s: string, k: string, rest: string)
    requires s != [] && MatchPlaceholder(s) == Some(k) && rest == s[|Placeholder(k)|..]
    requires Unwrap(ConvertVariablesToHtml(rest)) == rest
    ensures Unwrap(ConvertVariablesToHtml(s)) == s
  {
    ConvertStepPlaceholder(s, k);
    UnwrapAfterSpan(k, ConvertVariablesToHtml(rest));
    PrefixRest(Placeholder(k), s);
  }

  lemma UnwrapLiteralStep(s: string)
    requires s != [] && MatchPlaceholder(s).None?
    requires Unwrap(ConvertVariablesToHtml(s[1..])) == s[1..]
    ensures Unwrap(ConvertVariablesToHtml(s)) == s
  {
    ConvertStepLiteral(s);
    UnwrapAfterLiteral(s[0], s[1..]);
    ConsSplit(s);
  }

  // ---------------------------------------------------------------------------------------------
  // The documented edge cases

  /** Text where the scan finds no placeholder at any position contains none. */
  lemma NoMatchMeansNoPlaceholder(s: string)
    requires forall i :: 0 <= i < |s| ==> MatchPlaceholder(s[i..]).None?
    ensures !ContainsPlaceholder(s)
  {
    forall i: nat, k: string | IsKey(k) && OccursAt(s, i, k)
      ensures false
    {
      MatchPlaceholderComplete(s[i..], k);
    }
  }

  /** Text without an opening brace contains no placeholder. */
  lemma NoBraceNoPlaceholder(s: string)
    requires '{' !in s
    ensures !ContainsPlaceholder(s)
  {
    forall i: nat, k: string | IsKey(k) && i < |s| ensures !OccursAt(s, i, k) {
      assert s[i] != '{';
    }
  }

  /** Text where the scan finds no placeholder at any position is returned unchanged. */
  lemma UnchangedWithoutMatch(s: string)
    requires forall i :: 0 <= i < |s| ==> MatchPlaceholder(s[i..]).None?
    ensures ConvertVariablesToHtml(s) == s
  {
    NoMatchMeansNoPlaceholder(s);
    ConvertUnchangedIff(s);
  }

  /** Malformed forms pass through unchanged: an empty key, a key with a space or a dash, single
      braces, a missing closing brace. */
  lemma MalformedEmptyKey()
    ensures ConvertVariablesToHtml("{{}}") == "{{}}"
  {
    UnchangedWithoutMatch("{{}}");
  }

  lemma MalformedSpaceInKey()
    ensures ConvertVariablesToHtml("{{a b}}") == "{{a b}}"
  {
    UnchangedWithoutMatch("{{a b}}");
  }

  lemma MalformedDashInKey()
    ensures ConvertVariablesToHtml("{{a-b}}") == "{{a-b}}"
  {
    UnchangedWithoutMatch("{{a-b}}");
  }

  lemma MalformedBraces()
    ensures ConvertVariablesToHtml("{a}") == "{a}"
    ensures ConvertVariablesToHtml("{{a}") == "{{a}"
  {
    UnchangedWithoutMatch("{a}");
    UnchangedWithoutMatch("{{a}");
  }

  /** Matching is leftmost: in `{{{a}}}` the first brace is text and the match starts at the
      second one, leaving the last brace as text too. */
  lemma LeftmostMatch()
    ensures ConvertVariablesToHtml("{{{a}}}") == "{" + Span("a") + "}"
  {
    assert "{{{a}}}" == "{" + Placeholder("a") + "}";
    NoMatchMeansNoPlaceholder("{");
    NoMatchMeansNoPlaceholder("}");
    ConvertUnchangedIff("}");
    ConvertSplit("{", "a", "}");
  }
}
