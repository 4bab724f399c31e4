/**
 * What `fillVariables` does to text the placeholder wrapper produced.
 *
 * The fill pattern of src/components/CKEditorWithTemplates.tsx is written against the span
 * markup of src/components/variableHelpers.ts.  For wrapped text without `<` of its own, and
 * values without `<`, the rewrite for key `k` replaces exactly the spans generated for `k`, so
 * applying the whole value map gives the wrapped text with every mapped placeholder replaced by
 * its value: `Filled` below, characterised by `FilledPlain` and `FilledSplit`.
 */
module FillComposition {
  import opened Wrappers
  import opened SeqFacts
  import opened Text
  import VH = VariableHelpers
  import E = EditorWithTemplates

  /** The text a scanned piece stands for after filling: a mapped placeholder becomes its value,
      an unmapped one stays wrapped, a literal character is copied. */
  function FillPiece(p: VH.Piece, values: E.Entries): string {
    match p
    case Lit(c) => [c]
    case Var(k) =>
      match E.Lookup(values, k)
      case Some(v) => v
      case None => VH.Span(k)
  }

  function FillRender(ps: seq<VH.Piece>, values: E.Entries): string {
    if ps == [] then [] else FillPiece(ps[0], values) + FillRender(ps[1..], values)
  }

  /** The wrapped text `s` with every mapped placeholder's span replaced by its value. */
  function Filled(s: string, values: E.Entries): string {
    FillRender(VH.Parse(s), values)
  }

  /** Scanned text whose literals hold no `<` and whose keys are word keys. */
  predicate TagFreePieces(ps: seq<VH.Piece>) {
    forall i :: 0 <= i < |ps| ==>
      (ps[i].Lit? ==> ps[i].c != '<') && (ps[i].Var? ==> IsKey(ps[i].key))
  }

  /** Values without `<`. */
  predicate TagFreeValues(values: E.Entries) {
    forall i :: 0 <= i < |values| ==> '<' !in values[i].1
  }

  /** Keys that are word keys. */
  predicate WordKeys(values: E.Entries) {
    forall i :: 0 <= i < |values| ==> IsKey(values[i].0)
  }

  // ---------------------------------------------------------------------------------------------
  // Helpers about the value map

  /** Reading a property of two maps laid end to end: the first map wins. */
  lemma {:induction false} LookupAppend(e: E.Entries, f: E.Entries, k: string)
    ensures E.Lookup(e + f, k) == if E.Lookup(e, k).Some? then E.Lookup(e, k) else E.Lookup(f, k)
    decreases |e|
  {
    if e == [] {
      assert e + f == f;
    } else {
      assert (e + f)[0] == e[0];
      assert (e + f)[1..] == e[1..] + f;
      LookupAppend(e[1..], f, k);
    }
  }

  /** A value read from a map is one of its values. */
  lemma LookupTagFree(e: E.Entries, k: string)
    requires TagFreeValues(e) && E.Lookup(e, k).Some?
    ensures '<' !in E.Lookup(e, k).value
  {
    E.LookupFirst(e, k);
  }

  // ---------------------------------------------------------------------------------------------
  // One rewrite on filled text

  lemma FillRenderCons(ps: seq<VH.Piece>, values: E.Entries)
    requires ps != []
    ensures FillRender(ps, values) == FillPiece(ps[0], values) + FillRender(ps[1..], values)
  {
  }

  /**
   * The rewrite for key `k` with value `v`, run on filled text, fills `k` as well: every span
   * still generated for `k` is replaced by `v`, and every other piece is kept.  When `k` was
   * already filled there is no span of `k` left, matching a map where the earlier value wins.
   */
  lemma {:induction false} ReplaceOneKey(ps: seq<VH.Piece>, values: E.Entries, k: string, v: string)
    requires TagFreePieces(ps) && TagFreeValues(values) && IsKey(k) && '<' !in v
    ensures E.ReplaceSpans(FillRender(ps, values), k, v) == FillRender(ps, values + [(k, v)])
    decreases |ps|
  {
    if ps != [] {
      var rest := FillRender(ps[1..], values);
      assert TagFreePieces(ps[1..]) by {
        forall i | 0 <= i < |ps[1..]| ensures ps[1..][i] == ps[i + 1] { }
      }
      ReplaceOneKey(ps[1..], values, k, v);
      FillRenderCons(ps, values);
      FillRenderCons(ps, values + [(k, v)]);
      match ps[0]
      case Lit(c) =>
        E.ReplaceCopy([c], rest, k, v);
      case Var(k') =>
        LookupAppend(values, [(k, v)], k');
        if E.Lookup(values, k').Some? {
          LookupTagFree(values, k');
          E.ReplaceCopy(E.Lookup(values, k').value, rest, k, v);
        } else if k' == k {
          E.ReplaceOwnSpan(k, rest, v);
        } else {
          E.OtherKeySpanKept(k, k', rest, v);
        }
    }
  }

  /** Every key's rewrite, in the map's order, fills the text with the whole map. */
  lemma {:induction false} ApplyAll(ps: seq<VH.Piece>, values: E.Entries, more: E.Entries)
    requires TagFreePieces(ps) && TagFreeValues(values) && TagFreeValues(more) && WordKeys(more)
    ensures E.ApplyEntries(FillRender(ps, values), more) == FillRender(ps, values + more)
    decreases |more|
  {
    if more == [] {
      assert values + more == values;
    } else {
      var init := more[..|more| - 1];
      var last := more[|more| - 1];
      ApplyAll(ps, values, init);
      assert TagFreeValues(values + init) by {
        forall i | 0 <= i < |values + init| ensures '<' !in (values + init)[i].1 {
          if i >= |values| { assert (values + init)[i] == more[i - |values|]; }
        }
      }
      assert '<' !in last.1;
      ReplaceOneKey(ps, values + init, last.0, last.1);
      assert values + init + [(last.0, last.1)] == values + more;
    }
  }

  /** With an empty map, filling is wrapping. */
  lemma {:induction false} FillRenderEmpty(ps: seq<VH.Piece>)
    ensures FillRender(ps, []) == VH.Render(ps)
    decreases |ps|
  {
    if ps != [] {
      FillRenderEmpty(ps[1..]);
    }
  }

  /** A literal of the scanned pieces is a character of the input. */
  lemma {:induction false} LiteralFromInput(ps: seq<VH.Piece>, i: nat)
    requires i < |ps| && ps[i].Lit?
    ensures ps[i].c in VH.Unparse(ps)
    decreases i
  {
    if i > 0 {
      LiteralFromInput(ps[1..], i - 1);
      assert ps[1..][i - 1] == ps[i];
    }
  }

  /** Input without `<` is scanned into tag-free pieces. */
  lemma ScanTagFree(s: string)
    requires '<' !in s
    ensures TagFreePieces(VH.Parse(s))
  {
    var ps := VH.Parse(s);
    VH.ParseSpellsInput(s);
    VH.ParseKeysAreWords(s);
    forall i | 0 <= i < |ps| && ps[i].Lit? ensures ps[i].c != '<' {
      LiteralFromInput(ps, i);
    }
  }

  // ---------------------------------------------------------------------------------------------
  // Filling wrapped text

  /**
   * Composition: for input without `<`, word keys and values without `<`, rewriting the wrapped
   * text key by key gives the input with every mapped placeholder replaced by its value.
   */
  lemma FillAfterConvert(s: string, values: E.Entries)
    requires '<' !in s && WordKeys(values) && TagFreeValues(values)
    ensures E.ApplyEntries(VH.ConvertVariablesToHtml(s), values) == Filled(s, values)
  {
    ScanTagFree(s);
    FillRenderEmpty(VH.Parse(s));
    ApplyAll(VH.Parse(s), [], values);
    assert [] + values == values;
  }

  /** Text without a placeholder is filled as is. */
  lemma FilledPlain(a: string, values: E.Entries)
    requires !VH.ContainsPlaceholder(a)
    ensures Filled(a, values) == a
  {
    VH.ParsePlaceholderFree(a);
    FillRenderLits(a, values);
  }

  lemma {:induction false} FillRenderLits(a: string, values: E.Entries)
    ensures FillRender(VH.Lits(a), values) == a
    decreases |a|
  {
    if a != [] {
      assert VH.Lits(a)[1..] == VH.Lits(a[1..]);
      FillRenderLits(a[1..], values);
    }
  }

  lemma {:induction false} FillRenderAppend(a: seq<VH.Piece>, b: seq<VH.Piece>, values: E.Entries)
    ensures FillRender(a + b, values) == FillRender(a, values) + FillRender(b, values)
    decreases |a|
  {
    if a != [] {
      FillRenderAppend(a[1..], b, values);
      FillRenderAppendStep(a, b, values);
      AppendAssoc(FillPiece(a[0], values), FillRender(a[1..], values), FillRender(b, values));
    } else {
      assert a + b == b;
    }
  }

  /** The first piece of `a + b` is filled in front of the rest. */
  lemma FillRenderAppendStep(a: seq<VH.Piece>, b: seq<VH.Piece>, values: E.Entries)
    requires a != []
    ensures FillRender(a + b, values) == FillPiece(a[0], values) + FillRender(a[1..] + b, values)
  {
    ConsAppend(a, b);
  }

  /** Copied text, one piece, and more pieces are filled one after the other. */
  lemma FillRenderAround(a: string, p: VH.Piece, ps: seq<VH.Piece>, values: E.Entries)
    ensures FillRender(VH.Lits(a) + [p] + ps, values) == a + FillPiece(p, values) + FillRender(ps, values)
  {
    FillRenderAppend(VH.Lits(a) + [p], ps, values);
    FillRenderAppend(VH.Lits(a), [p], values);
    FillRenderLits(a, values);
    assert FillRender([p], values) == FillPiece(p, values) + FillRender([], values);
  }

  /** The first placeholder is replaced by its value when it is mapped and stays wrapped
      otherwise; the text before it is copied and the rest is filled the same way. */
  lemma FilledSplit(a: string, k: string, b: string, values: E.Entries)
    requires !VH.ContainsPlaceholder(a) && IsKey(k)
    ensures Filled(a + VH.Placeholder(k) + b, values) ==
      a + (match E.Lookup(values, k) case Some(v) => v case None => VH.Span(k)) + Filled(b, values)
  {
    VH.ParseSplit(a, k, b);
    FillRenderAround(a, VH.Var(k), VH.Parse(b), values);
  }

  /** Filling reads the map only through its lookups. */
  lemma {:induction false} FillRenderByLookup(ps: seq<VH.Piece>, e: E.Entries, f: E.Entries)
    requires forall k :: E.Lookup(e, k) == E.Lookup(f, k)
    ensures FillRender(ps, e) == FillRender(ps, f)
    decreases |ps|
  {
    if ps != [] {
      FillRenderByLookup(ps[1..], e, f);
    }
  }

  /** In a map with distinct names, a property reads `v` exactly when the entry `(k, v)` is in it. */
  lemma LookupDistinct(e: E.Entries, k: string, v: string)
    requires E.DistinctKeys(e)
    ensures E.Lookup(e, k) == Some(v) <==> (k, v) in e
  {
    E.LookupFirst(e, k);
    if (k, v) in e {
      var i :| 0 <= i < |e| && e[i] == (k, v);
      var j :| 0 <= j < |e| && e[j] == (k, E.Lookup(e, k).value) && forall j' :: 0 <= j' < j ==> e[j'].0 != k;
      assert i == j;
    }
  }

  /**
   * Order independence: two maps with distinct names and the same entries, in whatever order,
   * fill wrapped text alike, so the order in which the object's entries are enumerated does not
   * matter here.
   */
  lemma FillOrderIndependent(s: string, e: E.Entries, f: E.Entries)
    requires '<' !in s && WordKeys(e) && TagFreeValues(e) && WordKeys(f) && TagFreeValues(f)
    requires E.DistinctKeys(e) && E.DistinctKeys(f) && forall x :: x in e <==> x in f
    ensures E.ApplyEntries(VH.ConvertVariablesToHtml(s), e) == E.ApplyEntries(VH.ConvertVariablesToHtml(s), f)
  {
    FillAfterConvert(s, e);
    FillAfterConvert(s, f);
    forall k ensures E.Lookup(e, k) == E.Lookup(f, k) {
      E.LookupFirst(e, k);
      E.LookupFirst(f, k);
      if E.Lookup(e, k).Some? {
        LookupDistinct(e, k, E.Lookup(e, k).value);
        LookupDistinct(f, k, E.Lookup(e, k).value);
      } else if E.Lookup(f, k).Some? {
        LookupDistinct(f, k, E.Lookup(f, k).value);
        LookupDistinct(e, k, E.Lookup(f, k).value);
      }
    }
    FillRenderByLookup(VH.Parse(s), e, f);
  }

  /**
   * Over arbitrary strings, order independence needs text without `<`.  Here the text opens the
   * pattern of `b` in front of the span wrapped for `a`, an unclosed attribute list that no
   * serializer emits, and `a`'s value, which holds no `<`, ends that pattern.  With
   * `a` rewritten first, `b`'s pattern then matches and the whole text becomes `b`'s value; with
   * `b` rewritten first, nothing matches for `b` and only `a`'s span is replaced.
   */
  lemma OrderMattersWithMarkup(a: string, b: string)
    requires IsKey(a) && IsKey(b) && a != b
    ensures var t := E.FillOpen(b) + VH.Span(a) + "</span>";
      var w := "x>" + VH.Placeholder(b);
      '<' !in w &&
      E.ApplyEntries(t, [(a, w), (b, "V")]) == "V" &&
      E.ApplyEntries(t, [(b, "V"), (a, w)]) == E.FillOpen(b) + w + "</span>" != "V"
  {
    var o, c := E.FillOpen(b), "</span>";
    var t, w := o + VH.Span(a) + c, "x>" + VH.Placeholder(b);
    MarkupValueShape(w, b);
    OwnSpanInsideOpen(a, b, w);
    OpenClosedByValue(b, w);
    OpenAroundOtherSpanKept(a, b);
    ApplyTwo(t, (a, w), (b, "V"));
    ApplyTwo(t, (b, "V"), (a, w));
    E.FillOpenShape(b);
  }

  /** Two rewrites applied in the map's order. */
  lemma ApplyTwo(html: string, x: (string, string), y: (string, string))
    ensures E.ApplyEntries(html, [x, y]) == E.ReplaceSpans(E.ReplaceSpans(html, x.0, x.1), y.0, y.1)
  {
    assert E.ApplyEntries(html, [x]) == E.ReplaceSpans(html, x.0, x.1) by {
      assert [x][..0] == [];
    }
    assert [x, y][..1] == [x];
  }

  /** `a`'s rewrite copies `b`'s fixed start and replaces `a`'s span after it. */
  lemma OwnSpanInsideOpen(a: string, b: string, w: string)
    requires IsKey(a) && IsKey(b) && a != b
    ensures E.ReplaceSpans(E.FillOpen(b) + VH.Span(a) + "</span>", a, w) == E.FillOpen(b) + w + "</span>"
  {
    var o, c := E.FillOpen(b), "</span>";
    E.OtherKeyNoMatch(a, b, VH.Span(a) + c);
    E.FillOpenShape(b);
    AppendAssoc(o, VH.Span(a), c);
    E.OpenCopied(o, VH.Span(a) + c, a, w);
    E.ReplaceOwnSpan(a, c, w);
    E.ReplaceSkipsClosingTag([], a, w);
    assert c + [] == c;
    AppendAssoc(o, w, c);
  }

  /** After `a`'s rewrite, the value and the closing tag complete `b`'s pattern. */
  lemma OpenClosedByValue(b: string, w: string)
    requires IsKey(b) && w + "</span>" == "x" + E.FillClose(b)
    ensures E.ReplaceSpans(E.FillOpen(b) + w + "</span>", b, "V") == "V"
  {
    var o, f := E.FillOpen(b), E.FillClose(b);
    AppendAssoc(o, w, "</span>");
    E.ReplaceMatch(b, "x", [], "V");
    AppendAssoc(o, "x", f);
    assert o + "x" + f + [] == o + "x" + f;
  }

  /** `b`'s rewrite keeps its fixed start around `a`'s span: the first `>` after it closes `a`'s
      opening tag, and `a`'s placeholder follows. */
  lemma OpenAroundOtherSpanKept(a: string, b: string)
    requires IsKey(a) && IsKey(b) && a != b
    ensures var t := E.FillOpen(b) + VH.Span(a) + "</span>";
      E.ReplaceSpans(t, b, "V") == t
  {
    var o, c := E.FillOpen(b), "</span>";
    var mid := E.FillOpen(a) + E.LabelAttribute(a);
    E.SpanAsPattern(a);
    E.FillOpenNoGt(a);
    VH.KeyHasNoMarkup(a);
    assert '>' !in E.LabelAttribute(a);
    NotInAppend('>', E.FillOpen(a), E.LabelAttribute(a));
    E.MismatchedSpanKept(b, a, mid, c, "V");
    E.ReplaceSkipsClosingTag([], b, "V");
    assert c + [] == c;
    NestedRegroup(o, VH.Span(a), mid, VH.Placeholder(a), c);
  }

  /** The value used above ends `b`'s pattern once the closing tag follows it. */
  lemma MarkupValueShape(w: string, b: string)
    requires IsKey(b) && w == "x>" + VH.Placeholder(b)
    ensures w + "</span>" == "x" + E.FillClose(b) && '<' !in w
  {
    VH.KeyHasNoMarkup(b);
  }

  lemma NestedRegroup(o: string, span: string, mid: string, p: string, c: string)
    requires span == mid + (">" + p + c)
    ensures o + span + c == o + mid + ">" + p + c + c
  {
  }

  /** Idempotence: filling wrapped text a second time with the same map changes nothing. */
  lemma FillTwice(s: string, values: E.Entries)
    requires '<' !in s && WordKeys(values) && TagFreeValues(values)
    ensures var once := E.ApplyEntries(VH.ConvertVariablesToHtml(s), values);
      E.ApplyEntries(once, values) == once
  {
    FillAfterConvert(s, values);
    ScanTagFree(s);
    ApplyAll(VH.Parse(s), values, values);
    forall k ensures E.Lookup(values + values, k) == E.Lookup(values, k) {
      LookupAppend(values, values, k);
    }
    FillRenderByLookup(VH.Parse(s), values + values, values);
  }

  // ---------------------------------------------------------------------------------------------
  // fillVariables on wrapped text

  /** Every entry of the value map comes from a catalog entry: its key, and its default or `''`. */
  lemma {:induction false} ValueEntriesFromCatalog(walk: seq<Option<string>>, catalog: seq<E.VariableDef>, i: nat)
    requires i < |E.ValueEntries(walk, catalog)|
    ensures exists d :: d in catalog && E.ValueEntries(walk, catalog)[i] == (d.key, E.DefaultValue(d))
    decreases |walk|
  {
    var init := walk[..|walk| - 1];
    var last := walk[|walk| - 1];
    var before := E.ValueEntries(init, catalog);
    match E.FindVariable(catalog, last)
    case None =>
      ValueEntriesFromCatalog(init, catalog, i);
    case Some(d) =>
      AssignEntry(before, last.value, E.DefaultValue(d), i);
      if i < |before| && E.Assign(before, last.value, E.DefaultValue(d))[i] == before[i] {
        ValueEntriesFromCatalog(init, catalog, i);
      } else {
        var j :| 0 <= j < |catalog| && catalog[j] == d;
      }
  }

  /** An entry after an assignment is an entry from before or the assigned one. */
  lemma {:induction false} AssignEntry(e: E.Entries, k: string, v: string, i: nat)
    requires i < |E.Assign(e, k, v)|
    ensures E.Assign(e, k, v)[i] == (k, v) || (i < |e| && E.Assign(e, k, v)[i] == e[i])
    decreases |e|
  {
    if e != [] && e[0].0 != k && i > 0 {
      AssignEntry(e[1..], k, v, i - 1);
    }
  }

  /**
   * `fillVariables` on an editor holding wrapped text: when the catalog's keys are word keys and
   * its defaults hold no `<`, the editor is loaded with the text where every placeholder whose
   * key is on a variable node and in the catalog is replaced by that entry's default.
   */
  lemma FillVariablesOnWrappedText(s: string, walk: seq<Option<string>>, catalog: seq<E.VariableDef>)
    requires '<' !in s
    requires forall d :: d in catalog ==> IsKey(d.key) && '<' !in E.DefaultValue(d)
    ensures E.FilledHtml(E.Editor(VH.ConvertVariablesToHtml(s), walk), catalog) ==
            Filled(s, E.ValueEntries(walk, catalog))
  {
    var values := E.ValueEntries(walk, catalog);
    forall i | 0 <= i < |values| ensures IsKey(values[i].0) && '<' !in values[i].1 {
      ValueEntriesFromCatalog(walk, catalog, i);
    }
    FillAfterConvert(s, values);
  }

  /** Text ending in one placeholder, mapped to `v` by a map of word keys and values without
      `<`, is filled with `v`. */
  lemma FillLastPlaceholder(a: string, k: string, v: string, values: E.Entries)
    requires !VH.ContainsPlaceholder(a) && IsKey(k) && '<' !in a
    requires WordKeys(values) && TagFreeValues(values) && E.Lookup(values, k) == Some(v)
    ensures E.ApplyEntries(VH.ConvertVariablesToHtml(a + VH.Placeholder(k)), values) == a + v
  {
    var s := a + VH.Placeholder(k);
    VH.KeyHasNoMarkup(k);
    assert '<' !in s;
    FillAfterConvert(s, values);
    assert s == a + VH.Placeholder(k) + [];
    FilledSplit(a, k, [], values);
    assert !VH.ContainsPlaceholder([]) by {
      VH.NoMatchMeansNoPlaceholder([]);
    }
    FilledPlain([], values);
  }

  /** The built-in catalog meets the conditions above: word keys, and defaults without `<` as
      long as today's date has none. */
  lemma DefaultCatalogConditions(today: string)
    requires '<' !in today
    ensures forall d :: d in E.DefaultVariables(today) ==> IsKey(d.key) && '<' !in E.DefaultValue(d)
  {
    var catalog := E.DefaultVariables(today);
    CatalogKeys(catalog[0].key, catalog[1].key, catalog[2].key, catalog[3].key, catalog[4].key);
    CatalogDefaults(catalog[0].defaultValue.value, catalog[1].defaultValue.value,
                    catalog[2].defaultValue.value, catalog[4].defaultValue.value);
    forall d | d in catalog ensures IsKey(d.key) && '<' !in E.DefaultValue(d) {
      var i :| 0 <= i < |catalog| && catalog[i] == d;
    }
  }

  /** Literal facts about the catalog.  Each is stated on parameters bound to the literals, so
      the solver checks it on its own rather than inside a larger proof. */
  lemma CatalogKeys(a: string, b: string, c: string, d: string, e: string)
    requires a == "name" && b == "orderId" && c == "invoiceNumber" && d == "date" && e == "amount"
    ensures IsKey(a) && IsKey(b) && IsKey(c) && IsKey(d) && IsKey(e)
  {
  }

  lemma CatalogDefaults(a: string, b: string, c: string, e: string)
    requires a == "John Doe" && b == "ORD-12345" && c == "INV-001" && e == "$0.00"
    ensures '<' !in a && '<' !in b && '<' !in c && '<' !in e
  {
  }

  /** A template paragraph `<p>a{{k}}</p>`: wrapping it and running the rewrite for `k` gives the
      paragraph with the value in place of the placeholder. */
  lemma FillParagraphLine(a: string, k: string, v: string)
    requires '{' !in a && '<' !in a && IsKey(k)
    ensures E.ApplyEntries(VH.ConvertVariablesToHtml("<p>" + a + VH.Placeholder(k) + "</p>"), [(k, v)]) ==
            "<p>" + a + v + "</p>"
  {
    var open, close := "<p>", "</p>";
    var span := VH.Span(k);
    ParagraphTags(open, close);
    NotInAppend('{', open, a);
    VH.NoBraceNoPlaceholder(open + a);
    VH.ConvertSplit(open + a, k, close);
    VH.NoBraceNoPlaceholder(close);
    VH.ConvertUnchangedIff(close);
    var html := open + a + span + close;
    assert [(k, v)][..0] == [];
    assert E.ApplyEntries(VH.ConvertVariablesToHtml(open + a + VH.Placeholder(k) + close), [(k, v)]) ==
           E.ReplaceSpans(html, k, v);
    // <p>, then the copied text, then the span, then </p>
    AppendAssoc(open, a, span + close);
    AppendAssoc(open + a, span, close);
    E.ReplaceSkipsTag(open, a + (span + close), k, v);
    E.ReplaceCopy(a, span + close, k, v);
    E.ReplaceOwnSpan(k, close, v);
    AppendAssoc(close, [], []);
    E.ReplaceSkipsTag(close, [], k, v);
    assert close + [] == close;
    assert E.ReplaceSpans([], k, v) == [];
    AppendAssoc(open, a, v + close);
    AppendAssoc(open + a, v, close);
  }

  /** The opening and closing paragraph tags are tags whose names do not start with `s`. */
  lemma ParagraphTags(open: string, close: string)
    requires open == "<p>" && close == "</p>"
    ensures |open| >= 2 && open[0] == '<' && open[1] != 's' && '<' !in open[1..] && '{' !in open
    ensures |close| >= 2 && close[0] == '<' && close[1] != 's' && '<' !in close[1..] && '{' !in close
  {
  }

  /**
   * The invoice-number line of the built-in invoice template, in an editor where the variable
   * node `invoiceNumber` was found, filled from the built-in catalog.
   */
  lemma InvoiceLineExample(today: string, line: string)
    requires line == "<p>Invoice Number: {{invoiceNumber}}</p>"
    ensures E.FilledHtml(E.Editor(VH.ConvertVariablesToHtml(line), [Some("invoiceNumber")]),
                         E.DefaultVariables(today)) == "<p>Invoice Number: INV-001</p>"
  {
    var prefix, key, value := "Invoice Number: ", "invoiceNumber", "INV-001";
    InvoiceLiterals(line, prefix, key, value);
    InvoiceValues(today, key, value);
    FillParagraphLine(prefix, key, value);
  }

  /** That line is the second paragraph-level piece of the built-in invoice template. */
  lemma InvoiceTemplateLine(heading: string, line: string, rest: string)
    requires heading == "<h2>Invoice</h2>" && line == "<p>Invoice Number: {{invoiceNumber}}</p>"
    requires rest == "<p>Date: {{date}}</p><p>Amount: {{amount}}</p><p>Thank you for your business!</p>"
    ensures E.DefaultTemplates[1].id == "invoice-template"
    ensures E.DefaultTemplates[1].content == heading + line + rest
  {
  }

  /**
   * The literal facts the invoice example rests on.  The solver compares string literals
   * character by character, and one equation over the whole line is costly, so the line is
   * checked in two halves.
   */
  lemma InvoiceLiterals(line: string, prefix: string, key: string, value: string)
    requires line == "<p>Invoice Number: {{invoiceNumber}}</p>"
    requires prefix == "Invoice Number: " && key == "invoiceNumber" && value == "INV-001"
    ensures line == "<p>" + prefix + VH.Placeholder(key) + "</p>"
    ensures "<p>" + prefix + value + "</p>" == "<p>Invoice Number: INV-001</p>"
    ensures IsKey(key) && '{' !in prefix && '<' !in prefix
  {
    assert VH.Placeholder(key) == "{{invoiceNumber}}";
    InvoiceLineHalves(line, prefix, VH.Placeholder(key));
    InvoiceResult(prefix, value);
    InvoicePieces(prefix, key);
  }

  lemma InvoiceResult(prefix: string, value: string)
    requires prefix == "Invoice Number: " && value == "INV-001"
    ensures "<p>" + prefix + value + "</p>" == "<p>Invoice Number: INV-001</p>"
  {
  }

  lemma InvoicePieces(prefix: string, key: string)
    requires prefix == "Invoice Number: " && key == "invoiceNumber"
    ensures IsKey(key) && '{' !in prefix && '<' !in prefix
  {
  }

  lemma InvoiceLineHalves(line: string, prefix: string, p: string)
    requires line == "<p>Invoice Number: {{invoiceNumber}}</p>"
    requires prefix == "Invoice Number: " && p == "{{invoiceNumber}}"
    ensures line == "<p>" + prefix + p + "</p>"
  {
    var head, tail := "<p>Invoice Number: ", "{{invoiceNumber}}</p>";
    assert line == head + tail;
    assert head == "<p>" + prefix;
    assert tail == p + "</p>";
    AppendAssoc("<p>" + prefix, p, "</p>");
  }

  /** The walk that meets one `invoiceNumber` node builds the map holding its built-in default. */
  lemma InvoiceValues(today: string, key: string, value: string)
    requires key == "invoiceNumber" && value == "INV-001"
    ensures E.ValueEntries([Some(key)], E.DefaultVariables(today)) == [(key, value)]
  {
    assert [Some(key)][..0] == [];
    var catalog := E.DefaultVariables(today);
    assert catalog[2..][0].key == key;
    assert E.FindVariable(catalog, Some(key)) == Some(catalog[2]);
  }
}
