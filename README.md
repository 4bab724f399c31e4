# Template editor: placeholder wrapper, variable node and fill, in Dafny

This project models the logic under the React and Tiptap glue of the template editor:

- **The placeholder wrapper** `convertVariablesToHtml` (`src/components/variableHelpers.ts`).
  Every `{{key}}`, where the key is one or more of `[A-Za-z0-9_]`, becomes
  `<span data-type="variable" data-key="key" data-label="key">{{key}}</span>`. Matches are taken
  leftmost and non-overlapping, and all other text is copied.
  - The regex's scan is explicit: `Parse` cuts the input into literal characters and placeholders, and `Render` writes them back with each placeholder wrapped.
  - `Unwrap` is the inverse: it replaces every generated span by its visible text.
- **The `variable` node** (`src/components/VariableExtension.ts`):
  - the render and parse functions of its `key` and `label` attributes;
  - its parse rule, and the element it renders;
  - the payload of its `insertVariable` command;
  - its Backspace and Delete handlers, on a paragraph: a sequence of inline items, each taking one position, and a cursor offset.
- **The editor component** (`src/components/CKEditorWithTemplates.tsx`):
  - the default catalogs;
  - the initial content and the rule that syncs the `data` property into the editor;
  - the editor-absent guards of `insertTemplate` and `insertVariable`;
  - `fillVariables`, which collects a value for every variable node and then rewrites the editor's HTML one key at a time with the pattern `<span data-type="variable" data-key="K"[^>]*>\{\{K\}\}<\/span>`.
- **The contract between the two markup formats.** The fill pattern matches exactly the spans the wrapper generates for its key, and no other key's spans. Filling wrapped text therefore gives the input with every mapped placeholder replaced by its value (`FillComposition`). This is proved for input without `<` of its own, word keys and values without `<`; for the editor's real HTML, which holds tags, only single lines such as a template paragraph are proved.

The modules are:

| module | role |
|---|---|
| `Wrappers` | `Option` |
| `SeqFacts` | generic sequence lemmas |
| `Text` | word characters and keys |
| `VariableHelpers` | the wrapper and its inverse |
| `VariableExtension` | the node |
| `EditorWithTemplates` | the component |
| `FillComposition` | wrapper followed by fill |

The editor is modelled by what the actions read from it: its HTML, taken as given, and the keys of its variable nodes in the order the document walk visits them. What an action asks of the editor or of its listener is returned as a list of `Command`s.

## Model

| member | source | states |
|---|---|---|
| VariableHelpers.ConvertVariablesToHtml | src/components/variableHelpers.ts:2-7 | `convertVariablesToHtml`, defined as the scan `Parse` followed by `Render`; the output is never shorter than the input |
| VariableHelpers.WrappedLength | src/components/variableHelpers.ts:4-5 | the wrapped text is never shorter than the input, and is longer exactly when the input holds a `{{word}}` placeholder |
| VariableHelpers.Parse | src/components/variableHelpers.ts:4 | definition: the global regex's left-to-right, non-overlapping scan, taking `{{word}}` where one starts and one literal character otherwise; characterised by the lemmas below |
| VariableHelpers.Render | src/components/variableHelpers.ts:4-5 | definition: the replacement, a placeholder piece becomes its span and a literal is copied |
| VariableHelpers.Span | src/components/variableHelpers.ts:5 | definition: the template literal of line 5 for key `k`; its element reading is `VariableExtension.WrapperSpanSerialized` |
| Text.WordPrefix | src/components/variableHelpers.ts:4 | `\w+` is greedy: the result is the longest run of `[A-Za-z0-9_]` that starts the text, followed by a non-word character or the end |
| VariableHelpers.MatchPlaceholder | src/components/variableHelpers.ts:4 | a match found at the start of the text is a word key, and `{{key}}` starts the text |
| VariableHelpers.MatchPlaceholderComplete | src/components/variableHelpers.ts:4 | whenever `{{k}}` with a word key starts the text, the scan finds exactly `k` there (the regex has one match per position) |
| VariableHelpers.ParseSpellsInput | src/components/variableHelpers.ts:4 | the scan loses and adds nothing: its pieces spell the input back exactly |
| VariableHelpers.ParseKeysAreWords | src/components/variableHelpers.ts:4-5 | every captured key is one or more word characters, so no `"`, `<` or `>` reaches the generated attributes |
| VariableHelpers.KeyHasNoMarkup | src/components/variableHelpers.ts:4-5 | a word key contains no `<`, `>`, `"`, `{` or `}`, and its placeholder no `<` |
| VariableHelpers.ConvertUnchangedIff | src/components/variableHelpers.ts:4 | the wrapper returns its input unchanged exactly when the input has no `{{word}}` substring (both directions) |
| VariableHelpers.ParsePlaceholderFree | src/components/variableHelpers.ts:4 | placeholder-free text is scanned as literal characters only |
| VariableHelpers.ParseFindsPlaceholder | src/components/variableHelpers.ts:4 | text with a placeholder somewhere yields at least one match |
| VariableHelpers.RenderLonger | src/components/variableHelpers.ts:5 | wrapping never shortens the text, and strictly lengthens it once a placeholder is wrapped |
| VariableHelpers.ParseSplit | src/components/variableHelpers.ts:4 | leftmost, non-overlapping matching: placeholder-free text before a placeholder is copied, the placeholder is taken whole, and the scan resumes right after it |
| VariableHelpers.ConvertSplit | src/components/variableHelpers.ts:4-5 | the wrapper copies the text before the first placeholder verbatim, emits that placeholder's span, and converts the rest the same way |
| VariableHelpers.ConvertPlaceholder | src/components/variableHelpers.ts:4-5 | `{{k}}` for a word key becomes exactly `<span data-type="variable" data-key="k" data-label="k">{{k}}</span>` |
| VariableHelpers.ConvertStepPlaceholder | src/components/variableHelpers.ts:4-5 | a placeholder at the front becomes its span, followed by the conversion of the rest |
| VariableHelpers.ConvertStepLiteral | src/components/variableHelpers.ts:4 | with no placeholder at the front, the first character is copied, followed by the conversion of the rest |
| VariableHelpers.MatchSpan | src/components/variableHelpers.ts:5 | a generated span found at the start of the text is the span of a word key |
| VariableHelpers.MatchSpanComplete | src/components/variableHelpers.ts:5 | whenever the span generated for a word key starts the text, the unwrap scan finds exactly that key |
| VariableHelpers.SpanFirst | src/components/variableHelpers.ts:5 | every generated span starts with `<` |
| VariableHelpers.SpanOpenShape | src/components/variableHelpers.ts:5 | the span's fixed start is `<` followed by text that starts with `s` and holds no other `<` |
| VariableHelpers.SpanAfterOpen | src/components/variableHelpers.ts:5 | after the fixed start, a generated span holds its key and then the closing quote of `data-key` |
| VariableHelpers.SpanHeadBody | src/components/variableHelpers.ts:5 | the generated opening tag holds no `<` after its first character |
| VariableHelpers.ConvertStartsTag | src/components/variableHelpers.ts:4-5 | converted text starts with `<` wherever the input starts with a placeholder |
| VariableHelpers.ConvertPrefixWithoutTag | src/components/variableHelpers.ts:4 | `<`-free text that starts the output was copied from the start of the input |
| VariableHelpers.PlaceholderNeverSurvives | src/components/variableHelpers.ts:4-5 | the output never starts with a bare placeholder: it would have been wrapped |
| VariableHelpers.NoSpanAfterLiteral | src/components/variableHelpers.ts:4-5 | a copied character followed by converted text never starts a generated span, so unwrapping cannot mistake copied text for a span |
| VariableHelpers.UnwrapAfterSpan | src/components/variableHelpers.ts:5 | unwrapping turns a generated span back into its placeholder and goes on after it |
| VariableHelpers.UnwrapAfterLiteral | src/components/variableHelpers.ts:4 | unwrapping copies a literal character in front of converted text |
| VariableHelpers.UnwrapConvert | src/components/variableHelpers.ts:4-5 | round trip: replacing every generated span by its inner text recovers the input, for every input |
| VariableHelpers.NoMatchMeansNoPlaceholder | src/components/variableHelpers.ts:4 | text where the scan finds no match at any position has no placeholder |
| VariableHelpers.NoBraceNoPlaceholder | src/components/variableHelpers.ts:4 | text without `{` has no placeholder |
| VariableHelpers.UnchangedWithoutMatch | src/components/variableHelpers.ts:4 | text where the scan finds no match at any position is returned unchanged |
| VariableHelpers.MalformedEmptyKey | src/components/variableHelpers.ts:4 | `{{}}` passes through unchanged |
| VariableHelpers.MalformedSpaceInKey | src/components/variableHelpers.ts:4 | `{{a b}}` passes through unchanged |
| VariableHelpers.MalformedDashInKey | src/components/variableHelpers.ts:4 | `{{a-b}}` passes through unchanged |
| VariableHelpers.MalformedBraces | src/components/variableHelpers.ts:4 | `{a}` and `{{a}` pass through unchanged |
| VariableHelpers.LeftmostMatch | src/components/variableHelpers.ts:4 | `{{{a}}}` becomes `{`, the span for `a`, then `}` |
| VariableExtension.RenderKeyAttribute | src/components/VariableExtension.ts:38-45 | the key renders to `{data-key: key}` exactly when it is truthy, and to `{}` otherwise |
| VariableExtension.RenderLabelAttribute | src/components/VariableExtension.ts:50-57 | the label renders to `{data-label: label}` exactly when it is truthy, and to `{}` otherwise |
| VariableExtension.ParseAttributes | src/components/VariableExtension.ts:35-49 | each attribute is read from its `data-` attribute; a missing one is `null`, the default |
| VariableExtension.MatchesParseRule | src/components/VariableExtension.ts:62-68 | definition: the parse rule `span[data-type="variable"]` |
| VariableExtension.DisplayKey | src/components/VariableExtension.ts:72 | definition: `node.attrs.key \|\| 'variable'` |
| VariableExtension.RenderNode | src/components/VariableExtension.ts:71-82 | the rendered element is a span that always carries `data-type="variable"` and class `variable-node`, with text `{{key}}`; the key falls back to `variable` when null or empty |
| VariableExtension.ParseRenderRoundTrip | src/components/VariableExtension.ts:33-82 | the rendered element satisfies the parse rule `span[data-type="variable"]`, and parsing it gives back every truthy attribute, with `null` for the others |
| VariableExtension.NonEmptyAttributesRoundTrip | src/components/VariableExtension.ts:33-82 | non-empty key and label are recovered exactly, and the node shows `{{key}}` |
| VariableExtension.WrapperAttributesSerialized | src/components/variableHelpers.ts:5 | the wrapper's attributes, written in their order, are `data-type`, `data-key` and `data-label` |
| VariableExtension.WrapperSpanSerialized | src/components/variableHelpers.ts:5 | the wrapper's span is the element with those three attributes around the text `{{k}}` |
| VariableExtension.AttributeMap | src/components/variableHelpers.ts:5 | the attributes a parser reads from attributes written in order: exactly the names written, each with its first value |
| VariableExtension.WrapperSpanIsVariableNode | src/components/VariableExtension.ts:62-68 | the element read from the wrapper's attribute list (`AttributeMap(WrapperAttributes(k))`) satisfies the node's parse rule, parses to key and label `k`, and the parsed node renders the same text |
| VariableExtension.InsertVariablePayload | src/components/VariableExtension.ts:84-95 | `insertVariable` inserts one node of type `variable` whose attributes are exactly the given key and label |
| VariableExtension.VariableKeys | src/components/CKEditorWithTemplates.tsx:117-119 | the walk visits at most one key per inline item; fully characterised by the next three lemmas |
| VariableExtension.VariableKeysSingle | src/components/CKEditorWithTemplates.tsx:117-119 | one item yields its key exactly when it is a variable node, and nothing otherwise |
| VariableExtension.VariableKeysAppend | src/components/CKEditorWithTemplates.tsx:117-119 | the walk over two runs of items is the first run's keys followed by the second's (document order) |
| VariableExtension.VariableKeysMembers | src/components/CKEditorWithTemplates.tsx:117-119 | a key is visited exactly when some variable node carries it |
| VariableExtension.Paragraph.constructor | src/components/VariableExtension.ts:100-102 | a paragraph with its items and a cursor within them |
| VariableExtension.Paragraph.NodeBefore | src/components/VariableExtension.ts:105 | `$from.nodeBefore` is the item left of the cursor in the same paragraph, and there is none exactly at offset 0 |
| VariableExtension.Paragraph.NodeAfter | src/components/VariableExtension.ts:121 | `$from.nodeAfter` is the item right of the cursor, and there is none exactly at the end |
| VariableExtension.Paragraph.InsertVariable | src/components/VariableExtension.ts:86-92 | at a collapsed cursor exactly one variable node with the given attributes is inserted; the items around it are unchanged and the cursor moves past it |
| VariableExtension.Paragraph.Backspace | src/components/VariableExtension.ts:99-115 | the handler never fires and changes nothing: at offset 0 there is no node before the cursor, and at any other offset it returns false at once |
| VariableExtension.Paragraph.BackspaceIntended | src/components/VariableExtension.ts:99-115 | corrected handler: it fires exactly when a variable node is right before the cursor, removes exactly that node, and moves the cursor back by one; otherwise nothing changes |
| VariableExtension.BackspaceAfterVariable | src/components/VariableExtension.ts:104-111 | with one variable node before the cursor, the handler as written does not fire, while the corrected one removes the node |
| VariableExtension.Paragraph.Delete | src/components/VariableExtension.ts:116-129 | fires exactly when a variable node is right after the cursor, and then removes exactly that one position; otherwise the paragraph is unchanged; the cursor never moves |
| VariableExtension.DeleteVariableKeys | src/components/VariableExtension.ts:123 | deleting a variable node removes exactly its key from the fill walk and keeps the other keys in order |
| EditorWithTemplates.DefaultVariables | src/components/CKEditorWithTemplates.tsx:42-48 | definition: the five built-in variables, with today's date as a parameter; `FillComposition.DefaultCatalogConditions` and `FillComposition.InvoiceValues` state what the fill relies on |
| EditorWithTemplates.InitialContent | src/components/CKEditorWithTemplates.tsx:62 | the initial content is the converted `data`, including for empty `data` |
| EditorWithTemplates.SyncContent | src/components/CKEditorWithTemplates.tsx:77-82 | `setContent(convertVariablesToHtml(data), false)` is issued exactly when there is an editor and `data` differs from its HTML |
| EditorWithTemplates.SyncAfterLoad | src/components/CKEditorWithTemplates.tsx:78-80 | once the editor holds the converted `data`, the effect loads it again exactly when `data` has a placeholder |
| EditorWithTemplates.InsertTemplate | src/components/CKEditorWithTemplates.tsx:85-95 | nothing happens exactly when the editor is absent; otherwise the converted content is loaded, and the new HTML is reported exactly when there is a listener |
| EditorWithTemplates.InsertVariable | src/components/CKEditorWithTemplates.tsx:98-106 | nothing happens exactly when the editor is absent; otherwise one variable node with the entry's key and label is inserted |
| EditorWithTemplates.FindVariable | src/components/CKEditorWithTemplates.tsx:120 | `find` returns the first catalog entry with the node's key, and nothing exactly when no entry has it or the key is null |
| EditorWithTemplates.DefaultValue | src/components/CKEditorWithTemplates.tsx:122 | the value is `defaultValue` when it is present and non-empty, and `''` otherwise |
| EditorWithTemplates.LookupFirst | src/components/CKEditorWithTemplates.tsx:114 | a property reads as a value exactly when an entry has its name, and then as the first such entry's value |
| EditorWithTemplates.Assign | src/components/CKEditorWithTemplates.tsx:122 | after `obj[k] = v`, property `k` reads `v` and no other property changes |
| EditorWithTemplates.AssignKeys | src/components/CKEditorWithTemplates.tsx:122 | an existing property keeps its place in the insertion order; a new one is appended |
| EditorWithTemplates.AssignDistinct | src/components/CKEditorWithTemplates.tsx:122 | assignment keeps property names distinct |
| EditorWithTemplates.CollectStep | src/components/CKEditorWithTemplates.tsx:118-124 | definition: one visit of the walk, `values[key] = variable.defaultValue \|\| ''` when the catalog has the key |
| EditorWithTemplates.ValueEntries | src/components/CKEditorWithTemplates.tsx:117-125 | definition: the value object after the walk; characterised by `ValueEntriesLookup` |
| EditorWithTemplates.ValueEntriesLookup | src/components/CKEditorWithTemplates.tsx:117-125 | the value map holds `k` exactly when `k` is on a visited node and in the catalog; its value is then the first entry's default or `''`; each key appears once |
| EditorWithTemplates.IndexOfGt | src/components/CKEditorWithTemplates.tsx:131 | the result is the first `>` at or after the given position, and nothing exactly when there is none |
| EditorWithTemplates.MatchSpanPattern | src/components/CKEditorWithTemplates.tsx:131 | a match is at least as long as the pattern's fixed parts and lies within the text |
| EditorWithTemplates.MatchSpanPatternSound | src/components/CKEditorWithTemplates.tsx:131 | a match found is a prefix in the pattern's language: the fixed start, text without `>`, then `>{{K}}</span>` |
| EditorWithTemplates.MatchSpanPatternComplete | src/components/CKEditorWithTemplates.tsx:131 | every prefix in the pattern's language is the match found |
| EditorWithTemplates.MatchAfterOpen | src/components/CKEditorWithTemplates.tsx:131 | after the fixed start and text without `>`, the pattern matches exactly when `>{{K}}</span>` follows the first `>` |
| EditorWithTemplates.ReplaceSpans | src/components/CKEditorWithTemplates.tsx:131-132 | definition: `replace` with the global flag, leftmost non-overlapping matches replaced by the value, other text copied; characterised by the lemmas below |
| EditorWithTemplates.ApplyEntries | src/components/CKEditorWithTemplates.tsx:128-133 | definition: every entry's rewrite in the object's order; `FillComposition.ApplyAll` states its effect on wrapped text |
| EditorWithTemplates.ReplaceUnchangedWithoutMatch | src/components/CKEditorWithTemplates.tsx:131-132 | text where the key's pattern matches at no position is returned unchanged |
| EditorWithTemplates.ReplaceCopy | src/components/CKEditorWithTemplates.tsx:132 | text without `<` in front of the rest is copied verbatim by the rewrite |
| EditorWithTemplates.ReplaceWithoutTag | src/components/CKEditorWithTemplates.tsx:132 | text without `<` is left unchanged |
| EditorWithTemplates.ReplaceMatch | src/components/CKEditorWithTemplates.tsx:131-132 | every match is replaced by the value, and the global rewrite goes on right after it |
| EditorWithTemplates.ReplaceSkipsTag | src/components/CKEditorWithTemplates.tsx:131-132 | a tag whose name does not start with `s` is copied |
| EditorWithTemplates.ReplaceSkipsClosingTag | src/components/CKEditorWithTemplates.tsx:131-132 | a closing `</span>` is copied |
| EditorWithTemplates.SpanLikeKept | src/components/CKEditorWithTemplates.tsx:131-132 | span-like markup where the pattern does not match at its start is copied whole |
| EditorWithTemplates.MismatchNoMatch | src/components/CKEditorWithTemplates.tsx:131 | a span whose `data-key` and inner `{{…}}` disagree does not match the pattern of its `data-key` |
| EditorWithTemplates.MismatchedSpanKept | src/components/CKEditorWithTemplates.tsx:131-132 | such a span is left unchanged by the rewrite for its `data-key`, whatever its attribute text holds before the first `>`, markup included |
| EditorWithTemplates.ReplaceCopyBeforeGt | src/components/CKEditorWithTemplates.tsx:131-132 | text without `>` in front of a `>` that does not begin `>{{K}}</span>` is copied: `[^>]*>` cannot match past that `>` |
| EditorWithTemplates.CloseKeyUnique | src/components/CKEditorWithTemplates.tsx:131 | `>{{K}}</span>` only starts `>{{B}}…` when `K` and `B` are the same word key |
| EditorWithTemplates.SpanAsPattern | src/components/CKEditorWithTemplates.tsx:131 | the wrapper's span for `k` is in `k`'s pattern language: fixed start, the label attribute (no `>`), fixed end |
| EditorWithTemplates.ReplaceOwnSpan | src/components/CKEditorWithTemplates.tsx:131-132 | the rewrite for `k` replaces the wrapper's span for `k` by the value |
| EditorWithTemplates.OtherKeyNoMatch | src/components/CKEditorWithTemplates.tsx:131 | the pattern for `k` never matches where another key's fixed start stands |
| EditorWithTemplates.OtherKeySpanKept | src/components/CKEditorWithTemplates.tsx:131-132 | the rewrite for `k` keeps the wrapper's span for every other key |
| EditorWithTemplates.FillOpenShape | src/components/CKEditorWithTemplates.tsx:131 | the pattern's fixed start is `<` then the span's fixed start, the key and a quote; for a word key it holds no other `<` |
| EditorWithTemplates.FillVariables | src/components/CKEditorWithTemplates.tsx:109-139 | without an editor nothing happens. Otherwise the walk builds the value map, every entry's rewrite is applied in insertion order, the result is loaded, and it is reported exactly when there is a listener |
| FillComposition.LookupAppend | src/components/CKEditorWithTemplates.tsx:129 | in two maps laid end to end the first one's property wins |
| FillComposition.ReplaceOneKey | src/components/CKEditorWithTemplates.tsx:131-132 | for scanned text whose literals hold no `<` and whose keys are word keys, a map of values without `<`, a word key `k` and a value without `<`: the rewrite for `k` on the filled text fills `k` too, and keeps everything else |
| FillComposition.ApplyAll | src/components/CKEditorWithTemplates.tsx:129-133 | for scanned text whose literals hold no `<` and whose keys are word keys, and maps of values without `<` (the added one with word keys): the rewrites of all entries, in order, fill the text with the whole map |
| FillComposition.FillRenderEmpty | src/components/variableHelpers.ts:4-5 | with an empty map, filling is wrapping |
| FillComposition.ScanTagFree | src/components/variableHelpers.ts:4 | input without `<` is scanned into word keys and literals without `<` |
| FillComposition.FillAfterConvert | src/components/CKEditorWithTemplates.tsx:129-133 | composition: for input without `<`, word keys and values without `<`, filling the wrapped input gives the input with each mapped `{{k}}` replaced by its value and unmapped ones still wrapped |
| FillComposition.FilledPlain | src/components/CKEditorWithTemplates.tsx:129-133 | text without a placeholder is filled as is |
| FillComposition.FilledSplit | src/components/CKEditorWithTemplates.tsx:129-133 | the first placeholder becomes its value when mapped and stays wrapped otherwise; the text before it is copied and the rest is filled the same way |
| FillComposition.FillRenderByLookup | src/components/CKEditorWithTemplates.tsx:129 | filling reads the map only through its property lookups |
| FillComposition.LookupDistinct | src/components/CKEditorWithTemplates.tsx:129 | in a map with distinct names, a property reads `v` exactly when the entry `(k, v)` is in it |
| FillComposition.FillOrderIndependent | src/components/CKEditorWithTemplates.tsx:129-133 | for input text without `<`, and maps with distinct word keys and values without `<`: two maps with the same entries, in any order, fill the wrapped text alike |
| FillComposition.OrderMattersWithMarkup | src/components/CKEditorWithTemplates.tsx:129-133 | for some strings containing `<`, the order does matter, even for values without `<`: the text `<span data-type="variable" data-key="b"` followed by the span wrapped for `a` and `</span>` becomes `V` when `a` is rewritten to `x>{{b}}` before `b` to `V`, and keeps `b`'s fixed start when `b` goes first. This text leaves an attribute list unclosed, which no serializer emits, so it is not editor HTML |
| FillComposition.FillTwice | src/components/CKEditorWithTemplates.tsx:129-133 | for input without `<`, and a map of word keys and values without `<`: filling the wrapped text a second time with the same map changes nothing |
| FillComposition.ValueEntriesFromCatalog | src/components/CKEditorWithTemplates.tsx:117-125 | every entry of the value map is a catalog entry's key with its default or `''` |
| FillComposition.AssignEntry | src/components/CKEditorWithTemplates.tsx:122 | after an assignment each entry is the assigned one or an entry from before |
| FillComposition.FillVariablesOnWrappedText | src/components/CKEditorWithTemplates.tsx:109-139 | on an editor holding wrapped text without `<`, with a catalog of word keys and defaults without `<`, the fill replaces each placeholder whose key is on a node and in the catalog by that entry's default |
| FillComposition.DefaultCatalogConditions | src/components/CKEditorWithTemplates.tsx:42-48 | the built-in catalog meets those conditions: word keys, and defaults without `<` when today's date has none |
| FillComposition.FillParagraphLine | src/components/CKEditorWithTemplates.tsx:128-133 | for text `a` without `{` or `<` and a word key `k`: a template paragraph `<p>a{{k}}</p>`, wrapped, then rewritten for `k`, becomes `<p>a` + value + `</p>` |
| FillComposition.FillLastPlaceholder | src/components/CKEditorWithTemplates.tsx:129-133 | for a map of word keys and values without `<` that maps `k` to `v`: text without `<` and without a placeholder, followed by `{{k}}`, is wrapped and filled to that text followed by `v` |
| FillComposition.InvoiceTemplateLine | src/components/CKEditorWithTemplates.tsx:34-38 | the invoice template's content is its heading, the line `<p>Invoice Number: {{invoiceNumber}}</p>`, then the rest |
| FillComposition.InvoiceValues | src/components/CKEditorWithTemplates.tsx:45 | a walk that meets one `invoiceNumber` node builds the map `{invoiceNumber: 'INV-001'}` from the built-in catalog |
| FillComposition.InvoiceLineExample | src/components/CKEditorWithTemplates.tsx:37-45 | an editor holding that wrapped line, with one `invoiceNumber` node, is filled from the built-in catalog to `<p>Invoice Number: INV-001</p>` |

## Left out

- React UI: dropdown state, the click-outside listener, the toolbar and its formatting and undo buttons, the inline style string and the CSS import.
- Tiptap and ProseMirror internals: the document tree, `getHTML`, `setContent`, `insertContent`, transactions and `dispatch`. `getHTML` is an input string.
- The order of attributes in exported HTML. It is decided by `mergeAttributes`, which is not part of this model. The fill pattern is checked against the wrapper's format only.
- The `HTMLAttributes` option, and the `style` attribute of the rendered node. `RenderNode` carries the attributes the node itself sets.
- `new Date().toLocaleDateString()` depends on locale and clock. It is the `today` parameter of `DefaultVariables`.
- The listener's `onUpdate` callback, and what `onChange` does: an action only reports the HTML it passes.
- Paragraphs and selections: the handlers are modelled on one paragraph with a collapsed cursor, and atoms and characters each take one position.
- EditorWithTemplates.MatchSpanPattern, EditorWithTemplates.ReplaceSpans, EditorWithTemplates.FillVariables: the key is interpolated into `new RegExp` unescaped. A key with regex metacharacters changes the pattern, and one such as `a(` makes `new RegExp` throw, so `fillVariables` stops before loading anything. The model reads every key literally and always loads the result, and the composition lemmas assume word keys.
- EditorWithTemplates.ReplaceSpans, EditorWithTemplates.FillVariables: JavaScript `replace` treats `$$`, `$&`, `` $` `` and `$'` in a replacement string specially. For a word key the pattern has no capture groups, so a `$` followed by a digit is kept as written. `ReplaceSpans` inserts the value literally, so the model matches the source only for values that contain none of `$$`, `$&`, `` $` `` or `$'`. The built-in default `$0.00` is inserted as is. The lemmas of `FillComposition` inherit this.
- FillComposition.FillAfterConvert: proved for input text without `<`, word keys and values without `<`. Markup in the input or in a value can form or hide a span pattern. Through `ReplaceSpans` it also holds for the source only for values that contain none of `$$`, `$&`, `` $` `` or `$'`; `$0.00` is inserted as is.
- FillComposition.ReplaceOneKey: proved only for scanned text whose literals hold no `<` and whose keys are word keys, a word key, and values without `<`. Markup in the text or in a value can form or hide a span pattern.
- FillComposition.ApplyAll: proved under the same conditions as `ReplaceOneKey`, for every entry of the map.
- FillComposition.FillOrderIndependent: proved only for input text without `<`, with maps of distinct word keys and values without `<`. `OrderMattersWithMarkup` shows the text condition cannot be dropped for arbitrary strings. The editor's real HTML holds block tags such as `<p>` or `<h1>`–`<h3>`, so this lemma does not cover it.
- FillComposition.FillLastPlaceholder: proved only for text without `<` in front of the placeholder, and a map of word keys and values without `<`.
- FillComposition.FillVariablesOnWrappedText: proved only for a catalog whose keys are word keys and whose defaults hold no `<`, on wrapped text without `<`. A default with markup can form another key's pattern: `{{a}}{{b}}` with `a` mapped to the fixed start of `b`'s pattern and `b` to `V` fills to `V`, not to that start followed by `V`.
- FillComposition.FillTwice: proved on wrapped text under the same conditions. In general a value can complete a span pattern around itself, and a second fill then changes it.
- EditorWithTemplates.FillVariables: `Object.entries` lists integer-like keys first, and `__proto__` is not an own property. The model keeps plain insertion order. `FillOrderIndependent` proves the order does not matter only for wrapped text without `<` of its own. Every built-in template and every `getHTML` result holds block tags such as `<p>` or `<h1>`–`<h3>`, so for the editor's real HTML order independence is not proved. `OrderMattersWithMarkup` shows only that order matters for some strings containing `<`; its text is not one a serializer emits, so whether order matters for editor HTML is left open.
- VariableHelpers.Parse: its pieces and `Unwrap`'s scan are reference definitions written for the proofs. The source has one `replace` call.

## Findings

| source | as written | input that shows it | evidently intended | confidence | as-written member | corrected member |
|---|---|---|---|---|---|---|
| src/components/VariableExtension.ts:104-111 | the variable before the cursor is deleted only when `$from.parentOffset` is 0, but there the node before the cursor in the same parent is always null, so the deletion never runs | a paragraph holding one variable node with the cursor right after it: Backspace returns false and the node is left to the default handling | Backspace removes a variable node right before the cursor as one unit, as Delete does for the node after it | high (not executed) | VariableExtension.BackspaceAfterVariable | VariableExtension.Paragraph.BackspaceIntended |
