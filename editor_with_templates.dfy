/**
 * The editor component of src/components/CKEditorWithTemplates.tsx, reduced to the logic under
 * its React and Tiptap glue: the guards of the toolbar actions, the rule that syncs the `data`
 * property into the editor, and `fillVariables`, which collects a value for every variable node
 * and then rewrites the editor's HTML one key at a time.
 *
 * The editor is modelled by what these actions read from it: its HTML (what `getHTML` returns,
 * taken as given) and the keys of its variable nodes in document order (what the `descendants`
 * walk visits).  What an action asks of the editor or of the caller is returned as a list of
 * commands.
 */
module EditorWithTemplates {
  import opened Wrappers
  import opened SeqFacts
  import opened Text
  import VariableHelpers
  import VariableExtension

  /** A template offered by the template menu. */
  datatype Template = Template(id: string, name: string, content: string)

  /** A catalog entry of the variable menu; `defaultValue` is optional. */
  datatype VariableDef = VariableDef(key: string, labelText: string, defaultValue: Option<string>)

  /** What the actions read from the editor: its HTML and the keys of its variable nodes in the
      order the document walk visits them (a node's key may be `null`). */
  datatype Editor = Editor(html: string, variableKeys: seq<Option<string>>)

  /** What an action asks of the editor or of the caller. */
  datatype Command =
    | SetContent(html: string, emitUpdate: Option<bool>)  // `None`: the library's default
    | InsertNode(content: VariableExtension.NodeContent)
    | NotifyChange(html: string)                          // `onChange(html)`
    | NotifyEditorHtml                                    // `onChange(editor.getHTML())`

  // ---------------------------------------------------------------------------------------------
  // Default catalogs

  /** The two built-in templates. */
  const DefaultTemplates: seq<Template> := [
    Template("email-template", "Email Template",
      "<p>Dear {{name}},</p><p>Thank you for your interest. Your order ID is: {{orderId}}.</p><p>Best regards,<br>Team</p>"),
    Template("invoice-template", "Invoice Template",
      "<h2>Invoice</h2>" + "<p>Invoice Number: {{invoiceNumber}}</p>"
      + "<p>Date: {{date}}</p><p>Amount: {{amount}}</p><p>Thank you for your business!</p>")
  ]

  /** The built-in variables; the date's default is today's date in the user's locale, passed in. */
  function DefaultVariables(today: string): seq<VariableDef> {
    [ VariableDef("name", "Name", Some("John Doe")),
      VariableDef("orderId", "Order ID", Some("ORD-12345")),
      VariableDef("invoiceNumber", "Invoice Number", Some("INV-001")),
      VariableDef("date", "Date", Some(today)),
      VariableDef("amount", "Amount", Some("$0.00")) ]
  }

  // ---------------------------------------------------------------------------------------------
  // Content sync and the toolbar actions

  /** The editor's initial content: the converted `data`, or empty for empty `data`. */
  function InitialContent(data: string): (r: string)
    ensures r == VariableHelpers.ConvertVariablesToHtml(data)
  {
    if data == "" then "" else VariableHelpers.ConvertVariablesToHtml(data)
  }

  /** The effect run when `data` or the editor changes: the converted `data` is loaded, without
      an update event, only when there is an editor whose HTML differs from `data`. */
  function SyncContent(editor: Option<Editor>, data: string): (cmds: seq<Command>)
    ensures cmds != [] <==> editor.Some? && data != editor.value.html
    ensures cmds != [] ==> cmds == [SetContent(VariableHelpers.ConvertVariablesToHtml(data), Some(false))]
  {
    if editor.Some? && data != editor.value.html then
      [SetContent(VariableHelpers.ConvertVariablesToHtml(data), Some(false))]
    else []
  }

  /** The guard compares the raw `data` with the editor's HTML: once the editor holds the
      converted `data`, the effect loads it again exactly when `data` has a placeholder. */
  lemma SyncAfterLoad(data: string, keys: seq<Option<string>>)
    ensures var editor := Editor(VariableHelpers.ConvertVariablesToHtml(data), keys);
      SyncContent(Some(editor), data) != [] <==> VariableHelpers.ContainsPlaceholder(data)
  {
    VariableHelpers.ConvertUnchangedIff(data);
  }

  /** `insertTemplate`: without an editor nothing happens; otherwise the template's converted
      content replaces the document and, when there is a listener, the new HTML is reported. */
  function InsertTemplate(editor: Option<Editor>, t: Template, hasOnChange: bool): (cmds: seq<Command>)
    ensures editor.None? <==> cmds == []
    ensures editor.Some? ==>
      cmds[0] == SetContent(VariableHelpers.ConvertVariablesToHtml(t.content), None) &&
      (|cmds| == 2 <==> hasOnChange) && |cmds| <= 2 && (hasOnChange ==> cmds[1] == NotifyEditorHtml)
  {
    if editor.None? then []
    else [SetContent(VariableHelpers.ConvertVariablesToHtml(t.content), None)]
         + (if hasOnChange then [NotifyEditorHtml] else [])
  }

  /** `insertVariable`: without an editor nothing happens; otherwise the node command is issued
      with the catalog entry's key and label. */
  function InsertVariable(editor: Option<Editor>, v: VariableDef): (cmds: seq<Command>)
    ensures editor.None? <==> cmds == []
    ensures editor.Some? ==> cmds == [InsertNode(VariableExtension.NodeContent(
      VariableExtension.NodeName, VariableExtension.VariableAttrs(Some(v.key), Some(v.labelText))))]
  {
    if editor.None? then [] else [InsertNode(VariableExtension.InsertVariablePayload(v.key, v.labelText))]
  }

  // ---------------------------------------------------------------------------------------------
  // The value map

  /** `variables.find(v => v.key === key)`: the first catalog entry with the node's key; a `null`
      key matches none. */
  function FindVariable(catalog: seq<VariableDef>, key: Option<string>): (r: Option<VariableDef>)
    ensures r.None? <==> key.None? || forall i :: 0 <= i < |catalog| ==> catalog[i].key != key.value
    ensures r.Some? ==>
      key.Some? &&
      exists i :: 0 <= i < |catalog| && catalog[i] == r.value && catalog[i].key == key.value &&
                  forall j :: 0 <= j < i ==> catalog[j].key != key.value
    decreases |catalog|
  {
    if key.None? || catalog == [] then None
    else if catalog[0].key == key.value then
      assert catalog[0].key == key.value;
      Some(catalog[0])
    else
      var r := FindVariable(catalog[1..], key);
      if r.Some? then
        var i :| 0 <= i < |catalog[1..]| && catalog[1..][i] == r.value &&
          catalog[1..][i].key == key.value && forall j :: 0 <= j < i ==> catalog[1..][j].key != key.value;
        assert forall j :: 0 <= j < i + 1 ==> catalog[j].key != key.value by {
          forall j | 0 <= j < i + 1 ensures catalog[j].key != key.value {
            if j > 0 { assert catalog[j] == catalog[1..][j - 1]; }
          }
        }
        r
      else
        assert forall i :: 0 <= i < |catalog| ==> catalog[i].key != key.value by {
          forall i | 0 <= i < |catalog| ensures catalog[i].key != key.value {
            if i > 0 { assert catalog[i] == catalog[1..][i - 1]; }
          }
        }
        r
  }

  /** `variable.defaultValue || ''`. */
  function DefaultValue(v: VariableDef): (r: string)
    ensures v.defaultValue.Some? && v.defaultValue.value != "" ==> r == v.defaultValue.value
    ensures v.defaultValue.None? || v.defaultValue.value == "" ==> r == ""
  {
    v.defaultValue.GetOr("")
  }

  /** A string-keyed JavaScript object: its own properties in insertion order. */
  type Entries = seq<(string, string)>

  function Keys(e: Entries): (ks: seq<string>)
    ensures |ks| == |e| && forall i :: 0 <= i < |e| ==> ks[i] == e[i].0
  {
    seq(|e|, i requires 0 <= i < |e| => e[i].0)
  }

  predicate DistinctKeys(e: Entries) {
    forall i, j :: 0 <= i < j < |e| ==> e[i].0 != e[j].0
  }

  /** Reading property `k`: the value of the first entry with that name. */
  function Lookup(e: Entries, k: string): Option<string>
    decreases |e|
  {
    if e == [] then None
    else if e[0].0 == k then Some(e[0].1)
    else Lookup(e[1..], k)
  }

  /** A property reads as a value exactly when an entry has its name, and then it reads as the
      first such entry's value. */
  lemma {:induction false} LookupFirst(e: Entries, k: string)
    ensures Lookup(e, k).None? <==> forall i :: 0 <= i < |e| ==> e[i].0 != k
    ensures Lookup(e, k).Some? ==>
      exists i :: 0 <= i < |e| && e[i] == (k, Lookup(e, k).value) &&
                  forall j :: 0 <= j < i ==> e[j].0 != k
    decreases |e|
  {
    if e != [] && e[0].0 != k {
      LookupFirst(e[1..], k);
      var r := Lookup(e[1..], k);
      if r.Some? {
        var i :| 0 <= i < |e[1..]| && e[1..][i] == (k, r.value) && forall j :: 0 <= j < i ==> e[1..][j].0 != k;
        assert e[i + 1] == (k, r.value);
        forall j | 0 <= j < i + 1 ensures e[j].0 != k {
          if j > 0 { assert e[j] == e[1..][j - 1]; }
        }
      } else {
        forall i | 0 <= i < |e| ensures e[i].0 != k {
          if i > 0 { assert e[i] == e[1..][i - 1]; }
        }
      }
    } else if e != [] {
      assert e[0] == (k, e[0].1);
    }
  }

  /** Property assignment `obj[k] = v`: property `k` reads `v` afterwards and no other property
      changes. */
  function Assign(e: Entries, k: string, v: string): (r: Entries)
    ensures Lookup(r, k) == Some(v)
    ensures forall k' :: k' != k ==> Lookup(r, k') == Lookup(e, k')
    decreases |e|
  {
    if e == [] then [(k, v)]
    else if e[0].0 == k then [(k, v)] + e[1..]
    else
      var r := [e[0]] + Assign(e[1..], k, v);
      assert r[1..] == Assign(e[1..], k, v);
      r
  }

  /** An existing property keeps its place; a new one is appended. */
  lemma {:induction false} AssignKeys(e: Entries, k: string, v: string)
    ensures Keys(Assign(e, k, v)) == if k in Keys(e) then Keys(e) else Keys(e) + [k]
    decreases |e|
  {
    if e != [] && e[0].0 != k {
      var r' := Assign(e[1..], k, v);
      assert Assign(e, k, v) == [e[0]] + r';
      AssignKeys(e[1..], k, v);
      assert Keys(e) == [e[0].0] + Keys(e[1..]);
      assert Keys([e[0]] + r') == [e[0].0] + Keys(r');
    } else if e != [] {
      assert Keys(Assign(e, k, v)) == Keys(e);
    }
  }

  /** Assignment keeps property names distinct. */
  lemma AssignDistinct(e: Entries, k: string, v: string)
    requires DistinctKeys(e)
    ensures DistinctKeys(Assign(e, k, v))
  {
    AssignKeys(e, k, v);
    var ks := Keys(Assign(e, k, v));
    assert forall i, j :: 0 <= i < j < |Keys(e)| ==> Keys(e)[i] != Keys(e)[j];
    if k !in Keys(e) {
      forall i | 0 <= i < |Keys(e)| ensures ks[i] != k {
        assert ks[i] == Keys(e)[i];
      }
    }
    assert forall i, j :: 0 <= i < j < |ks| ==> ks[i] != ks[j];
  }

  /** One visit of the walk: a node whose key has a catalog entry sets that key's value. */
  function CollectStep(values: Entries, key: Option<string>, catalog: seq<VariableDef>): Entries {
    match FindVariable(catalog, key)
    case None => values
    case Some(v) => Assign(values, key.value, DefaultValue(v))
  }

  /** The value map after the walk has visited `walk`. */
  function ValueEntries(walk: seq<Option<string>>, catalog: seq<VariableDef>): Entries
    decreases |walk|
  {
    if walk == [] then []
    else CollectStep(ValueEntries(walk[..|walk| - 1], catalog), walk[|walk| - 1], catalog)
  }

  /**
   * The value map holds key `k` exactly when `k` occurs on a visited node and some catalog
   * entry has key `k`; its value is then the default of the first such entry, or `''`.  Each key
   * appears once.
   */
  lemma {:induction false} ValueEntriesLookup(walk: seq<Option<string>>, catalog: seq<VariableDef>, k: string)
    ensures Lookup(ValueEntries(walk, catalog), k) ==
      if Some(k) in walk && FindVariable(catalog, Some(k)).Some?
      then Some(DefaultValue(FindVariable(catalog, Some(k)).value))
      else None
    ensures DistinctKeys(ValueEntries(walk, catalog))
    decreases |walk|
  {
    if walk != [] {
      var init := walk[..|walk| - 1];
      var last := walk[|walk| - 1];
      ValueEntriesLookup(init, catalog, k);
      assert walk == init + [last];
      assert Some(k) in walk <==> Some(k) in init || last == Some(k);
      if FindVariable(catalog, last).Some? {
        AssignDistinct(ValueEntries(init, catalog), last.value, DefaultValue(FindVariable(catalog, last).value));
      }
    }
  }

  // ---------------------------------------------------------------------------------------------
  // The rewrite pattern of one key

  /** The pattern's fixed start for key `k`: `<span data-type="variable" data-key="k"`. */
  function FillOpen(k: string): string {
    VariableHelpers.SpanOpen + k + "\""
  }

  /** The pattern's fixed end for key `k`: the `>` that closes the opening tag, then
      `{{k}}</span>`. */
  function FillClose(k: string): string {
    ">" + VariableHelpers.Placeholder(k) + "</span>"
  }

  /** The regular language of the pattern: its start, any text without `>`, its end. */
  ghost predicate SpanPatternMatches(t: string, k: string) {
    exists mid :: '>' !in mid && t == FillOpen(k) + mid + FillClose(k)
  }

  /** The first `>` in `s` at or after `from`. */
  function IndexOfGt(s: string, from: nat): (r: Option<nat>)
    requires from <= |s|
    ensures r.None? ==> forall i :: from <= i < |s| ==> s[i] != '>'
    ensures r.Some? ==> (from <= r.value < |s| && s[r.value] == '>' &&
      forall i :: from <= i < r.value ==> s[i] != '>')
    decreases |s| - from
  {
    if from == |s| then None
    else if s[from] == '>' then Some(from)
    else IndexOfGt(s, from + 1)
  }

  /** The length of the pattern's match at the start of `s`, if it matches there.  `[^>]*` is
      greedy and must be followed by `>`, so it ends at the first `>` after the fixed start. */
  function MatchSpanPattern(s: string, k: string): (r: Option<nat>)
    ensures r.Some? ==> |FillOpen(k)| + |FillClose(k)| <= r.value <= |s|
  {
    if FillOpen(k) <= s then
      match IndexOfGt(s, |FillOpen(k)|)
      case None => None
      case Some(j) => if FillClose(k) <= s[j..] then Some(j + |FillClose(k)|) else None
    else None
  }

  /** A match found is a prefix of `s` in the pattern's language. */
  lemma MatchSpanPatternSound(s: string, k: string)
    requires MatchSpanPattern(s, k).Some?
    ensures SpanPatternMatches(s[..MatchSpanPattern(s, k).value], k)
  {
    var n := MatchSpanPattern(s, k).value;
    var j := IndexOfGt(s, |FillOpen(k)|).value;
    var mid := s[|FillOpen(k)|..j];
    assert '>' !in mid by {
      forall i | 0 <= i < |mid| ensures mid[i] != '>' { assert mid[i] == s[|FillOpen(k)| + i]; }
    }
    assert s[..n] == FillOpen(k) + mid + FillClose(k) by {
      assert s[..n] == s[..|FillOpen(k)|] + s[|FillOpen(k)|..j] + s[j..n];
      assert s[j..n] == s[j..][..|FillClose(k)|];
    }
  }

  /** Every prefix of `s` in the pattern's language is the match found. */
  lemma MatchSpanPatternComplete(s: string, k: string, mid: string)
    requires '>' !in mid && FillOpen(k) + mid + FillClose(k) <= s
    ensures MatchSpanPattern(s, k) == Some(|FillOpen(k)| + |mid| + |FillClose(k)|)
  {
    var om := FillOpen(k) + mid;
    PrefixSplit(om, FillClose(k), s);
    PrefixRest(om, s);
    var tail := s[|om|..];
    assert tail[0] == FillClose(k)[0] == '>';
    MatchAfterOpen(k, mid, tail);
  }

  /** After the pattern's fixed start and text without `>`, the pattern matches exactly when
      its fixed end follows the first `>`. */
  lemma MatchAfterOpen(k: string, mid: string, tail: string)
    requires '>' !in mid && tail != [] && tail[0] == '>'
    ensures MatchSpanPattern(FillOpen(k) + mid + tail, k) ==
      if FillClose(k) <= tail then Some(|FillOpen(k)| + |mid| + |FillClose(k)|) else None
  {
    var o := FillOpen(k);
    var s := o + mid + tail;
    var j := |o| + |mid|;
    PrefixOfAppend(o + mid, tail);
    PrefixOfAppend(o, mid);
    assert s[j] == tail[0];
    forall i | |o| <= i < j ensures s[i] != '>' {
      assert s[i] == (o + mid)[i] == mid[i - |o|];
    }
    IndexOfGtFinds(s, |o|, j);
  }

  lemma {:induction false} IndexOfGtFinds(s: string, from: nat, j: nat)
    requires from <= j < |s| && s[j] == '>'
    requires forall i :: from <= i < j ==> s[i] != '>'
    ensures IndexOfGt(s, from) == Some(j)
    decreases j - from
  {
    if from < j {
      IndexOfGtFinds(s, from + 1, j);
    }
  }

  /** `html.replace(pattern, value)` with the global flag: every leftmost, non-overlapping match
      of the key's pattern is replaced by the value, all other text is copied. */
  function ReplaceSpans(s: string, k: string, v: string): string
    decreases |s|
  {
    if s == [] then []
    else match MatchSpanPattern(s, k)
      case Some(n) => v + ReplaceSpans(s[n..], k, v)
      case None => [s[0]] + ReplaceSpans(s[1..], k, v)
  }

  /** Every key's rewrite applied in turn, in the map's order. */
  function ApplyEntries(html: string, entries: Entries): string
    decreases |entries|
  {
    if entries == [] then html
    else
      var last := entries[|entries| - 1];
      ReplaceSpans(ApplyEntries(html, entries[..|entries| - 1]), last.0, last.1)
  }

  /** The HTML `fillVariables` produces. */
  function FilledHtml(editor: Editor, catalog: seq<VariableDef>): string {
    ApplyEntries(editor.html, ValueEntries(editor.variableKeys, catalog))
  }

  // ---------------------------------------------------------------------------------------------
  // What one rewrite keeps and replaces

  /** The pattern's fixed start opens a tag whose name starts with `s`; for a word key it holds
      no further `<`. */
  lemma FillOpenShape(k: string)
    ensures |FillOpen(k)| > 1 && FillOpen(k)[0] == '<' && FillOpen(k)[1] == 's'
    ensures FillOpen(k)[1..] == VariableHelpers.SpanOpenRest + k + "\""
    ensures IsKey(k) ==> '<' !in FillOpen(k)[1..]
  {
    VariableHelpers.SpanOpenShape();
    var t := VariableHelpers.SpanOpenRest + k + "\"";
    AppendAssoc(['<'], VariableHelpers.SpanOpenRest, k);
    AppendAssoc(['<'], VariableHelpers.SpanOpenRest + k, "\"");
    DropCons('<', t);
    if IsKey(k) {
      VariableHelpers.KeyHasNoMarkup(k);
      NotInAppend('<', VariableHelpers.SpanOpenRest, k);
      NotInAppend('<', VariableHelpers.SpanOpenRest + k, "\"");
    }
  }

  /** One step of the rewrite where the pattern does not match: the first character is copied. */
  lemma ReplaceStepNoMatch(s: string, k: string, v: string)
    requires s != [] && MatchSpanPattern(s, k).None?
    ensures ReplaceSpans(s, k, v) == [s[0]] + ReplaceSpans(s[1..], k, v)
  {
  }

  /** Text that does not open a tag is copied by the rewrite. */
  lemma ReplaceStepCopy(s: string, k: string, v: string)
    requires s != [] && s[0] != '<'
    ensures ReplaceSpans(s, k, v) == [s[0]] + ReplaceSpans(s[1..], k, v)
  {
    FillOpenShape(k);
    ReplaceStepNoMatch(s, k, v);
  }

  /** Text without `<` in front of the rest is copied verbatim. */
  lemma {:induction false} ReplaceCopy(w: string, r: string, k: string, v: string)
    requires '<' !in w
    ensures ReplaceSpans(w + r, k, v) == w + ReplaceSpans(r, k, v)
    decreases |w|
  {
    if w != [] {
      ConsAppend(w, r);
      ReplaceStepCopy(w + r, k, v);
      NotInDrop('<', w);
      ReplaceCopy(w[1..], r, k, v);
      ConsJoin(w[0], w, w[1..] + ReplaceSpans(r, k, v), ReplaceSpans(r, k, v));
    } else {
      assert w + r == r;
    }
  }

  /** Text without `<` is left unchanged. */
  lemma ReplaceWithoutTag(s: string, k: string, v: string)
    requires '<' !in s
    ensures ReplaceSpans(s, k, v) == s
  {
    ReplaceCopy(s, [], k, v);
    assert s + [] == s;
  }

  /** Text where the key's pattern matches at no position is left unchanged. */
  lemma {:induction false} ReplaceUnchangedWithoutMatch(s: string, k: string, v: string)
    requires forall i :: 0 <= i < |s| ==> MatchSpanPattern(s[i..], k).None?
    ensures ReplaceSpans(s, k, v) == s
    decreases |s|
  {
    if s != [] {
      assert s[0..] == s;
      ReplaceStepNoMatch(s, k, v);
      forall i | 0 <= i < |s[1..]| ensures MatchSpanPattern(s[1..][i..], k).None? {
        assert s[1..][i..] == s[i + 1..];
      }
      ReplaceUnchangedWithoutMatch(s[1..], k, v);
      ConsSplit(s);
    }
  }

  /** A match of the key's pattern is replaced by the value, and the rewrite goes on after it. */
  lemma ReplaceMatch(k: string, mid: string, r: string, v: string)
    requires '>' !in mid
    ensures ReplaceSpans(FillOpen(k) + mid + FillClose(k) + r, k, v) == v + ReplaceSpans(r, k, v)
  {
    var t := FillOpen(k) + mid + FillClose(k);
    MatchSpanPatternComplete(t + r, k, mid);
    PrefixOfAppend(t, r);
  }

  /** A tag whose name does not start with `s`, with no other `<` in it, is copied. */
  lemma ReplaceSkipsTag(c: string, r: string, k: string, v: string)
    requires |c| >= 2 && c[0] == '<' && c[1] != 's' && '<' !in c[1..]
    ensures ReplaceSpans(c + r, k, v) == c + ReplaceSpans(r, k, v)
  {
    FillOpenShape(k);
    ConsAppend(c, r);
    assert (c + r)[1] == c[1];
    ReplaceStepNoMatch(c + r, k, v);
    ReplaceCopy(c[1..], r, k, v);
    ConsSplit(c);
    AppendAssoc([c[0]], c[1..], ReplaceSpans(r, k, v));
  }

  /** A closing tag is copied. */
  lemma ReplaceSkipsClosingTag(r: string, k: string, v: string)
    ensures ReplaceSpans("</span>" + r, k, v) == "</span>" + ReplaceSpans(r, k, v)
  {
    var c := "</span>";
    assert c[1] == '/' && '<' !in c[1..];
    ReplaceSkipsTag(c, r, k, v);
  }

  /** Text without `<` and the closing tag after it are copied. */
  lemma ReplaceSpanTail(head: string, r: string, k: string, v: string)
    requires '<' !in head
    ensures ReplaceSpans(head + "</span>" + r, k, v) == head + "</span>" + ReplaceSpans(r, k, v)
  {
    ReplaceSkipsClosingTag(r, k, v);
    ReplaceCopy(head, "</span>" + r, k, v);
    AppendAssoc(head, "</span>", r);
    AppendAssoc(head, "</span>", ReplaceSpans(r, k, v));
  }

  /** Markup shaped like a span, opened by the pattern's fixed start of some key and holding no
      other `<` before its closing tag, is copied when the rewrite does not match at its start. */
  lemma SpanLikeKept(a: string, mid: string, r: string, k: string, v: string)
    requires IsKey(a) && '<' !in mid
    requires MatchSpanPattern(FillOpen(a) + mid + "</span>" + r, k).None?
    ensures ReplaceSpans(FillOpen(a) + mid + "</span>" + r, k, v) ==
            FillOpen(a) + mid + "</span>" + ReplaceSpans(r, k, v)
  {
    var o, c := FillOpen(a), "</span>";
    FillOpenShape(a);
    NotInAppend('<', o[1..], mid);
    ReplaceSpanTail(o[1..] + mid, r, k, v);
    ConsRegroup(o, mid, c, r);
    DropCons(o[0], o[1..] + mid + c + r);
    ReplaceStepNoMatch(o + mid + c + r, k, v);
    ConsRegroup(o, mid, c, ReplaceSpans(r, k, v));
  }

  /** A span whose `data-key` and inner `{{…}}` disagree is not the pattern of its `data-key`:
      the rewrite for that key keeps it, whatever the attribute text `mid` holds up to the `>`. */
  lemma MismatchedSpanKept(a: string, b: string, mid: string, r: string, v: string)
    requires IsKey(a) && IsKey(b) && a != b
    requires '>' !in mid
    ensures var x := FillOpen(a) + mid + ">" + VariableHelpers.Placeholder(b) + "</span>";
      ReplaceSpans(x + r, a, v) == x + ReplaceSpans(r, a, v)
  {
    var o, p, c := FillOpen(a), VariableHelpers.Placeholder(b), "</span>";
    var tail := ">" + p + c + r;
    MismatchNoMatch(a, b, mid, r);
    CloseKeyUnique(a, b, c + r);
    SpanRegroup(o, mid, ">", p, c, r);
    SpanRegroup(o, mid, ">", p, c, ReplaceSpans(r, a, v));
    FillOpenShape(a);
    KeptFromOpen(o, mid, tail, a, v);
    VariableHelpers.KeyHasNoMarkup(b);
    NotInAppend('<', ">", p);
    ReplaceSpanTail(">" + p, r, a, v);
  }

  /** Regrouping a span laid out as fixed start, attribute text, `>`, placeholder, closing tag
      and what follows. */
  lemma SpanRegroup(o: string, mid: string, g: string, p: string, c: string, r: string)
    requires g != []
    ensures o + mid + g + p + c + r == o + mid + (g + p + c + r)
    ensures (g + p + c + r)[0] == g[0] && g + p + (c + r) == g + p + c + r
  {
  }

  /** Markup opened by some fixed start, with attribute text up to a `>` that does not start
      `k`'s fixed end, is copied up to that `>` when the rewrite does not match at its start. */
  lemma KeptFromOpen(o: string, mid: string, tail: string, k: string, v: string)
    requires IsKey(k) && o != [] && '<' !in o[1..] && '>' !in mid
    requires tail != [] && tail[0] == '>' && !(FillClose(k) <= tail)
    requires MatchSpanPattern(o + mid + tail, k).None?
    ensures ReplaceSpans(o + mid + tail, k, v) == o + mid + ReplaceSpans(tail, k, v)
  {
    AppendAssoc(o, mid, tail);
    OpenCopied(o, mid + tail, k, v);
    ReplaceCopyBeforeGt(mid, tail, k, v);
    AppendAssoc(o, mid, ReplaceSpans(tail, k, v));
  }

  /** Text that opens with a `<` where the rewrite does not match, and holds no other `<`, is
      copied. */
  lemma OpenCopied(o: string, rest: string, k: string, v: string)
    requires o != [] && '<' !in o[1..] && MatchSpanPattern(o + rest, k).None?
    ensures ReplaceSpans(o + rest, k, v) == o + ReplaceSpans(rest, k, v)
  {
    ConsAppend(o, rest);
    ReplaceStepNoMatch(o + rest, k, v);
    ReplaceCopy(o[1..], rest, k, v);
    ConsJoin(o[0], o, o[1..] + ReplaceSpans(rest, k, v), ReplaceSpans(rest, k, v));
  }

  /** Text without `>` in front of a `>` that does not start `k`'s fixed end is copied: a match
      starting inside that text would have to end at that `>`. */
  lemma {:induction false} ReplaceCopyBeforeGt(mid: string, tail: string, k: string, v: string)
    requires IsKey(k) && '>' !in mid && tail != [] && tail[0] == '>' && !(FillClose(k) <= tail)
    ensures ReplaceSpans(mid + tail, k, v) == mid + ReplaceSpans(tail, k, v)
    decreases |mid|
  {
    if mid == [] {
      assert mid + tail == tail;
    } else {
      GtFreeNoMatch(mid, tail, k);
      ConsAppend(mid, tail);
      ReplaceStepNoMatch(mid + tail, k, v);
      NotInDrop('>', mid);
      ReplaceCopyBeforeGt(mid[1..], tail, k, v);
      ConsJoin(mid[0], mid, mid[1..] + ReplaceSpans(tail, k, v), ReplaceSpans(tail, k, v));
    }
  }

  /** The key's pattern does not match at the start of text without `>` followed by a `>` that
      does not start the key's fixed end. */
  lemma GtFreeNoMatch(mid: string, tail: string, k: string)
    requires IsKey(k) && '>' !in mid && tail != [] && tail[0] == '>' && !(FillClose(k) <= tail)
    ensures MatchSpanPattern(mid + tail, k).None?
  {
    var s, o := mid + tail, FillOpen(k);
    if o <= s {
      FillOpenNoGt(k);
      assert s[|mid|] == '>';
      if |o| > |mid| {
        assert false;
      }
      forall i | |o| <= i < |mid| ensures s[i] != '>' {
        assert s[i] == mid[i];
      }
      IndexOfGtFinds(s, |o|, |mid|);
      PrefixOfAppend(mid, tail);
    }
  }

  /** The pattern's fixed start for a word key holds no `>`. */
  lemma FillOpenNoGt(k: string)
    requires IsKey(k)
    ensures '>' !in FillOpen(k)
  {
    assert '>' !in VariableHelpers.SpanOpen;
    VariableHelpers.KeyHasNoMarkup(k);
    NotInAppend('>', VariableHelpers.SpanOpen, k);
    NotInAppend('>', VariableHelpers.SpanOpen + k, "\"");
  }

  /** The attribute the generated span carries between `data-key` and the end of its opening tag. */
  function LabelAttribute(k: string): string {
    " data-label=\"" + k + "\""
  }

  /** The wrapper's span for `k` is in the language of `k`'s pattern: its fixed start, the label
      attribute (no `>` in it), its fixed end. */
  lemma SpanAsPattern(k: string)
    ensures VariableHelpers.Span(k) == FillOpen(k) + LabelAttribute(k) + FillClose(k)
  {
    VariableHelpers.SpanSegments("\" data-label=\"", "\">");
    SpanAssembly(VariableHelpers.SpanOpen, k, "\"", " data-label=\"", ">", VariableHelpers.Placeholder(k),
                 "</span>", "\" data-label=\"", "\">");
  }

  /** Regrouping of the span's pieces, stated over parameters so that no literal is unfolded. */
  lemma SpanAssembly(open: string, k: string, quote: string, labelOpen: string, gt: string, p: string,
                     close: string, labelSeg: string, endSeg: string)
    requires quote + labelOpen == labelSeg && quote + gt == endSeg
    ensures open + k + labelSeg + k + endSeg + p + close ==
            (open + k + quote) + (labelOpen + k + quote) + (gt + p + close)
  {
  }

  /** The rewrite for key `k` replaces the wrapper's span for `k` by the value. */
  lemma ReplaceOwnSpan(k: string, r: string, v: string)
    requires IsKey(k)
    ensures ReplaceSpans(VariableHelpers.Span(k) + r, k, v) == v + ReplaceSpans(r, k, v)
  {
    SpanAsPattern(k);
    VariableHelpers.KeyHasNoMarkup(k);
    assert '>' !in LabelAttribute(k);
    ReplaceMatch(k, LabelAttribute(k), r, v);
  }

  /** The rewrite for key `k` keeps the wrapper's span for any other key. */
  lemma OtherKeySpanKept(k: string, k': string, r: string, v: string)
    requires IsKey(k) && IsKey(k') && k != k'
    ensures ReplaceSpans(VariableHelpers.Span(k') + r, k, v) == VariableHelpers.Span(k') + ReplaceSpans(r, k, v)
  {
    var mid := LabelAttribute(k') + ">" + VariableHelpers.Placeholder(k');
    SpanAsPattern(k');
    assert VariableHelpers.Span(k') == FillOpen(k') + mid + "</span>";
    OtherKeyNoMatch(k, k', mid + "</span>" + r);
    assert VariableHelpers.Span(k') + r == FillOpen(k') + (mid + "</span>" + r);
    VariableHelpers.KeyHasNoMarkup(k');
    assert '<' !in mid;
    SpanLikeKept(k', mid, r, k, v);
  }

  lemma OtherKeyNoMatch(k: string, k': string, rest: string)
    requires IsKey(k) && IsKey(k') && k != k'
    ensures MatchSpanPattern(FillOpen(k') + rest, k).None?
  {
    var h := FillOpen(k') + rest;
    if FillOpen(k) <= h {
      assert FillOpen(k) == VariableHelpers.SpanOpen + (k + ['"']) + [];
      assert h == VariableHelpers.SpanOpen + (k' + ['"'] + rest);
      PrefixAfterLiteral(VariableHelpers.SpanOpen, k + ['"'], [], k' + ['"'] + rest, h);
      DelimitedKeyUnique(k, '"', k', '"', rest);
      assert false;
    }
  }

  lemma MismatchNoMatch(a: string, b: string, mid: string, r: string)
    requires IsKey(a) && IsKey(b) && a != b
    requires '>' !in mid
    ensures MatchSpanPattern(FillOpen(a) + mid + ">" + VariableHelpers.Placeholder(b) + "</span>" + r, a).None?
  {
    var o, p, c := FillOpen(a), VariableHelpers.Placeholder(b), "</span>";
    var tail := ">" + p + c + r;
    assert o + mid + ">" + p + c + r == o + mid + tail;
    MatchAfterOpen(a, mid, tail);
    CloseKeyUnique(a, b, c + r);
  }

  /** The pattern's fixed end for `a` starts `>{{b}}…` only when `a` and `b` are the same key. */
  lemma CloseKeyUnique(a: string, b: string, rest: string)
    requires IsKey(a) && IsKey(b)
    ensures FillClose(a) <= ">" + VariableHelpers.Placeholder(b) + rest ==> a == b
  {
    var lead := ">{{";
    var t := "}" + rest;
    CloseLiterals(lead, a, b, rest);
    if FillClose(a) <= ">" + VariableHelpers.Placeholder(b) + rest {
      PrefixAfterLiteral(lead, a + ['}'], "}</span>", b + ['}'] + t, ">" + VariableHelpers.Placeholder(b) + rest);
      DelimitedKeyUnique(a, '}', b, '}', t);
    }
  }

  /** The fixed end and the placeholder both start with `>{{`, a key and `}`. */
  lemma CloseLiterals(lead: string, a: string, b: string, rest: string)
    requires lead == ">{{"
    ensures FillClose(a) == lead + (a + ['}']) + "}</span>"
    ensures ">" + VariableHelpers.Placeholder(b) + rest == lead + (b + ['}'] + ("}" + rest))
  {
  }

  /** What follows a literal that starts both texts. */
  lemma PrefixAfterLiteral(lit: string, x: string, y: string, z: string, h: string)
    requires lit + x + y <= h && h == lit + z
    ensures x <= z
  {
    assert z == h[|lit|..];
  }

  // ---------------------------------------------------------------------------------------------
  // fillVariables

  /**
   * `fillVariables`: without an editor nothing happens.  Otherwise the walk over the variable
   * nodes fills the value map, every key's span pattern in the editor's HTML is then replaced by
   * its value, and the result is loaded into the editor and reported to the listener.
   */
  method FillVariables(editor: Option<Editor>, catalog: seq<VariableDef>, hasOnChange: bool)
    returns (cmds: seq<Command>)
    ensures editor.None? ==> cmds == []
    ensures editor.Some? ==>
      var filled := FilledHtml(editor.value, catalog);
      cmds == [SetContent(filled, None)] + (if hasOnChange then [NotifyChange(filled)] else [])
  {
    if editor.None? {
      return [];
    }
    var walk := editor.value.variableKeys;
    var values: Entries := [];
    for i := 0 to |walk|
      invariant values == ValueEntries(walk[..i], catalog)
    {
      var key := walk[i];
      var variable := FindVariable(catalog, key);
      if variable.Some? {
        values := Assign(values, key.value, DefaultValue(variable.value));
      }
      assert walk[..i + 1][..i] == walk[..i];
    }
    assert walk[..|walk|] == walk;
    var newContent := editor.value.html;
    for i := 0 to |values|
      invariant newContent == ApplyEntries(editor.value.html, values[..i])
    {
      var (key, value) := values[i];
      newContent := ReplaceSpans(newContent, key, value);
      assert values[..i + 1][..i] == values[..i];
    }
    assert values[..|values|] == values;
    cmds := [SetContent(newContent, None)];
    if hasOnChange {
      cmds := cmds + [NotifyChange(newContent)];
    }
  }
}
