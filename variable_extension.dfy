/**
 * The `variable` node of src/components/VariableExtension.ts: an inline, atomic node with two
 * attributes, `key` and `label`, stored in the markup as `data-key` and `data-label`, recognised on
 * import by the rule `span[data-type="variable"]`, rendered as a span whose text is `{{key}}`, and
 * given one command (insert a variable) and two keyboard handlers (Backspace, Delete).
 *
 * Markup elements are modelled as a tag, an attribute map and a text; a missing attribute is
 * `None`, as `getAttribute` returns `null`.  The handlers are modelled on one paragraph: a sequence
 * of inline items, each taking one position, with the cursor as the offset inside the paragraph.
 */
module VariableExtension {
  import opened Wrappers
  import opened SeqFacts
  import opened Text
  import VariableHelpers

  /** The name the node is registered under, and the type name the handlers test for. */
  const NodeName: string := "variable"

  /** The class every rendered variable node carries. */
  const NodeClass: string := "variable-node"

  /** The node's attributes; both default to `null`. */
  datatype VariableAttrs = VariableAttrs(key: Option<string>, labelText: Option<string>)

  /** JavaScript truthiness of an attribute that is a string or `null`. */
  predicate Truthy(v: Option<string>) {
    v.Some? && v.value != ""
  }

  type HtmlAttributes = map<string, string>

  /** A markup element: its tag, its attributes and its text content. */
  datatype Element = Element(tag: string, attributes: HtmlAttributes, text: string)

  /** `element.getAttribute(name)`: the value, or `null` when the attribute is missing. */
  function GetAttribute(el: Element, name: string): Option<string> {
    if name in el.attributes then Some(el.attributes[name]) else None
  }

  // ---------------------------------------------------------------------------------------------
  // addAttributes

  /** `key.renderHTML`: `data-key` when the key is truthy, nothing otherwise. */
  function RenderKeyAttribute(attrs: VariableAttrs): (r: HtmlAttributes)
    ensures r.Keys <= {"data-key"}
    ensures "data-key" in r <==> Truthy(attrs.key)
    ensures "data-key" in r ==> r["data-key"] == attrs.key.value
  {
    if !Truthy(attrs.key) then map[] else map["data-key" := attrs.key.value]
  }

  /** `label.renderHTML`: `data-label` when the label is truthy, nothing otherwise. */
  function RenderLabelAttribute(attrs: VariableAttrs): (r: HtmlAttributes)
    ensures r.Keys <= {"data-label"}
    ensures "data-label" in r <==> Truthy(attrs.labelText)
    ensures "data-label" in r ==> r["data-label"] == attrs.labelText.value
  {
    if !Truthy(attrs.labelText) then map[] else map["data-label" := attrs.labelText.value]
  }

  /** `key.parseHTML` and `label.parseHTML` together: each attribute is read from its `data-`
      attribute, and a missing one stays at its default, `null`. */
  function ParseAttributes(el: Element): (a: VariableAttrs)
    ensures a.key.Some? <==> "data-key" in el.attributes
    ensures a.labelText.Some? <==> "data-label" in el.attributes
    ensures a.key.Some? ==> a.key.value == el.attributes["data-key"]
    ensures a.labelText.Some? ==> a.labelText.value == el.attributes["data-label"]
  {
    VariableAttrs(GetAttribute(el, "data-key"), GetAttribute(el, "data-label"))
  }

  /** The node's `parseHTML` rule: `span[data-type="variable"]`. */
  predicate MatchesParseRule(el: Element) {
    el.tag == "span" && GetAttribute(el, "data-type") == Some(NodeName)
  }

  // ---------------------------------------------------------------------------------------------
  // renderHTML

  /** The key shown in the node's text: the key, or `variable` when it is `null` or empty. */
  function DisplayKey(attrs: VariableAttrs): string {
    if Truthy(attrs.key) then attrs.key.value else "variable"
  }

  /**
   * The node's `renderHTML`: a span carrying the rendered attributes merged with the fixed
   * `data-type` and `class`, whose text is `{{key}}`.  The attribute names of the two maps are
   * disjoint, so merging them is their union.
   */
  function RenderNode(attrs: VariableAttrs): (el: Element)
    ensures el.tag == "span"
    ensures "data-type" in el.attributes && el.attributes["data-type"] == NodeName
    ensures "class" in el.attributes && el.attributes["class"] == NodeClass
    ensures el.text == VariableHelpers.Placeholder(DisplayKey(attrs))
  {
    var fixed := map["data-type" := NodeName, "class" := NodeClass];
    Element("span", RenderKeyAttribute(attrs) + RenderLabelAttribute(attrs) + fixed,
            "{{" + DisplayKey(attrs) + "}}")
  }

  /** What survives a render-and-parse cycle: truthy values; an empty string becomes `null`. */
  function Normalize(attrs: VariableAttrs): VariableAttrs {
    VariableAttrs(if Truthy(attrs.key) then attrs.key else None,
                  if Truthy(attrs.labelText) then attrs.labelText else None)
  }

  /** Round trip: the rendered element satisfies the parse rule, and parsing it gives back every
      truthy attribute, with `null` for the others. */
  lemma ParseRenderRoundTrip(attrs: VariableAttrs)
    ensures MatchesParseRule(RenderNode(attrs))
    ensures ParseAttributes(RenderNode(attrs)) == Normalize(attrs)
  {
    var el := RenderNode(attrs);
    assert "data-key" in el.attributes <==> Truthy(attrs.key);
    assert "data-label" in el.attributes <==> Truthy(attrs.labelText);
  }

  /** Non-empty key and label are recovered exactly, and the node shows `{{key}}`. */
  lemma NonEmptyAttributesRoundTrip(key: string, labelText: string)
    requires key != "" && labelText != ""
    ensures var el := RenderNode(VariableAttrs(Some(key), Some(labelText)));
      MatchesParseRule(el) && ParseAttributes(el) == VariableAttrs(Some(key), Some(labelText)) &&
      el.text == VariableHelpers.Placeholder(key)
  {
    ParseRenderRoundTrip(VariableAttrs(Some(key), Some(labelText)));
  }

  // ---------------------------------------------------------------------------------------------
  // The wrapper's span, read as an element

  /** One attribute written out as ` name="value"`. */
  function SerializeAttribute(a: (string, string)): string {
    " " + a.0 + "=\"" + a.1 + "\""
  }

  /** Attributes written out in order. */
  function SerializeAttributes(attrs: seq<(string, string)>): string {
    if attrs == [] then "" else SerializeAttribute(attrs[0]) + SerializeAttributes(attrs[1..])
  }

  /** An element written out as markup with its attributes in the given order. */
  function SerializeElement(tag: string, attrs: seq<(string, string)>, text: string): string {
    "<" + tag + SerializeAttributes(attrs) + ">" + text + "</" + tag + ">"
  }

  /** The attribute list of the span the placeholder wrapper generates for key `k`. */
  function WrapperAttributes(k: string): seq<(string, string)> {
    [("data-type", NodeName), ("data-key", k), ("data-label", k)]
  }

  lemma SerializeCons(a: (string, string), rest: seq<(string, string)>)
    ensures SerializeAttributes([a] + rest) == SerializeAttribute(a) + SerializeAttributes(rest)
  {
    DropCons(a, rest);
  }

  /** The wrapper's attribute list written out. */
  lemma WrapperAttributesSerialized(k: string)
    ensures SerializeAttributes(WrapperAttributes(k)) ==
      " data-type=\"variable\"" + (" data-key=\"" + k + "\"") + (" data-label=\"" + k + "\"")
  {
    var x, y, z := ("data-type", NodeName), ("data-key", k), ("data-label", k);
    assert WrapperAttributes(k) == [x] + ([y] + ([z] + []));
    SerializeCons(z, []);
    SerializeCons(y, [z] + []);
    SerializeCons(x, [y] + ([z] + []));
    AttributeLiterals(k);
    AppendAssoc(SerializeAttribute(x), SerializeAttribute(y), SerializeAttribute(z));
  }

  /** The three attributes written out one by one. */
  lemma AttributeLiterals(k: string)
    ensures SerializeAttribute(("data-type", NodeName)) == " data-type=\"variable\""
    ensures SerializeAttribute(("data-key", k)) == " data-key=\"" + k + "\""
    ensures SerializeAttribute(("data-label", k)) == " data-label=\"" + k + "\""
  {
    assert " " + "data-key" + "=\"" == " data-key=\"";
    assert " " + "data-label" + "=\"" == " data-label=\"";
  }

  /** The opening tag of that element is the wrapper's span head. */
  lemma WrapperHeadSerialized(k: string)
    ensures "<" + "span" + SerializeAttributes(WrapperAttributes(k)) + ">" == VariableHelpers.SpanHead(k)
  {
    WrapperAttributesSerialized(k);
    HeadLiterals();
    VariableHelpers.SpanSegments("\" data-label=\"", "\">");
    AppendAssoc("<", "span", " data-type=\"variable\"");
    AppendAssoc("<", "span" + " data-type=\"variable\"", " data-key=\"");
    HeadAssembly("<", "span", " data-type=\"variable\"", " data-key=\"", "\"", " data-label=\"", ">",
                 VariableHelpers.SpanOpen, k, "\" data-label=\"", "\">");
  }

  /** The literal pieces of the opening tag. */
  lemma HeadLiterals()
    ensures "span" + " data-type=\"variable\"" + " data-key=\"" == VariableHelpers.SpanOpenRest
    ensures VariableHelpers.SpanOpen == "<" + VariableHelpers.SpanOpenRest
  {
  }

  /** Regrouping of the opening tag's pieces. */
  lemma HeadAssembly(lt: string, tag: string, typePart: string, keyOpen: string, quote: string,
                     labelOpen: string, gt: string, open: string, k: string, labelSeg: string,
                     closeSeg: string)
    requires lt + tag + typePart + keyOpen == open
    requires quote + labelOpen == labelSeg
    requires quote + gt == closeSeg
    ensures lt + tag + (typePart + (keyOpen + k + quote) + (labelOpen + k + quote)) + gt ==
            open + k + labelSeg + k + closeSeg
  {
  }

  /** The wrapper's span for `{{k}}` is the element with `data-type="variable"`, `data-key="k"`
      and `data-label="k"`, in that order, around the text `{{k}}`. */
  lemma WrapperSpanSerialized(k: string)
    ensures VariableHelpers.Span(k) ==
      SerializeElement("span", WrapperAttributes(k), VariableHelpers.Placeholder(k))
  {
    WrapperHeadSerialized(k);
    var attrs := SerializeAttributes(WrapperAttributes(k));
    var p := VariableHelpers.Placeholder(k);
    assert SerializeElement("span", WrapperAttributes(k), p) == "<" + "span" + attrs + ">" + p + ("</" + "span" + ">");
  }

  /** The attribute map a markup parser builds from attributes written in order: a name written
      twice keeps its first value. */
  function AttributeMap(attrs: seq<(string, string)>): (m: HtmlAttributes)
    ensures forall name :: name in m <==> exists i :: 0 <= i < |attrs| && attrs[i].0 == name
    ensures forall i :: 0 <= i < |attrs| && (forall j :: 0 <= j < i ==> attrs[j].0 != attrs[i].0) ==>
      attrs[i].0 in m && m[attrs[i].0] == attrs[i].1
    decreases |attrs|
  {
    if attrs == [] then map[]
    else
      var m := AttributeMap(attrs[1..])[attrs[0].0 := attrs[0].1];
      assert forall i :: 1 <= i < |attrs| ==> attrs[i] == attrs[1..][i - 1];
      m
  }

  /** The element the wrapper's markup is read as satisfies the parse rule, parses to key `k` and
      label `k`, and the parsed node renders the same text back. */
  lemma WrapperSpanIsVariableNode(k: string)
    requires IsKey(k)
    ensures var el := Element("span", AttributeMap(WrapperAttributes(k)), VariableHelpers.Placeholder(k));
      MatchesParseRule(el) && ParseAttributes(el) == VariableAttrs(Some(k), Some(k)) &&
      RenderNode(ParseAttributes(el)).text == el.text
  {
    var attrs := WrapperAttributes(k);
    var m := AttributeMap(attrs);
    assert attrs[0].0 == "data-type" && attrs[1].0 == "data-key" && attrs[2].0 == "data-label";
    assert m["data-type"] == NodeName;
    assert m["data-key"] == k;
    assert m["data-label"] == k;
  }

  // ---------------------------------------------------------------------------------------------
  // addCommands

  /** The content handed to `insertContent`. */
  datatype NodeContent = NodeContent(nodeType: string, attrs: VariableAttrs)

  /** The `insertVariable` command's payload: one node of this type whose attributes are exactly
      the given key and label. */
  function InsertVariablePayload(key: string, labelText: string): (c: NodeContent)
    ensures c.nodeType == NodeName && c.attrs == VariableAttrs(Some(key), Some(labelText))
  {
    NodeContent(NodeName, VariableAttrs(Some(key), Some(labelText)))
  }

  // ---------------------------------------------------------------------------------------------
  // addKeyboardShortcuts, on one paragraph

  /** An inline item of a paragraph; each takes one position. */
  datatype Inline = Text(c: char) | HardBreak | Variable(attrs: VariableAttrs)

  /** The handlers' test `node && node.type.name === 'variable'`. */
  predicate IsVariableNode(n: Option<Inline>) {
    n.Some? && n.value.Variable?
  }

  /** The keys of the variable nodes in document order, as the fill walk visits them. */
  function VariableKeys(items: seq<Inline>): (keys: seq<Option<string>>)
    ensures |keys| <= |items|
  {
    if items == [] then []
    else (if items[0].Variable? then [items[0].attrs.key] else []) + VariableKeys(items[1..])
  }

  class Paragraph {
    var items: seq<Inline>
    /** The cursor's offset in the paragraph (`$from.parentOffset`). */
    var cursor: nat

    ghost predicate Valid()
      reads this
    {
      cursor <= |items|
    }

    constructor (items: seq<Inline>, cursor: nat)
      requires cursor <= |items|
      ensures Valid() && this.items == items && this.cursor == cursor
    {
      this.items := items;
      this.cursor := cursor;
    }

    /** `$from.nodeBefore`: the item left of the cursor in the same paragraph; none at offset 0. */
    function NodeBefore(): (n: Option<Inline>)
      reads this
      requires Valid()
      ensures n.Some? <==> cursor > 0
      ensures n.Some? ==> n.value == items[cursor - 1]
    {
      if cursor == 0 then None else Some(items[cursor - 1])
    }

    /** `$from.nodeAfter`: the item right of the cursor; none at the end of the paragraph. */
    function NodeAfter(): (n: Option<Inline>)
      reads this
      requires Valid()
      ensures n.Some? <==> cursor < |items|
      ensures n.Some? ==> n.value == items[cursor]
    {
      if cursor == |items| then None else Some(items[cursor])
    }

    /** The `insertVariable` command at a collapsed cursor: exactly one variable node with the
        given attributes is inserted, and the cursor ends up after it. */
    method InsertVariable(key: string, labelText: string)
      requires Valid()
      modifies this
      ensures Valid()
      ensures items == old(items)[..old(cursor)] + [Variable(InsertVariablePayload(key, labelText).attrs)]
                       + old(items)[old(cursor)..]
      ensures cursor == old(cursor) + 1
    {
      var content := InsertVariablePayload(key, labelText);
      items := items[..cursor] + [Variable(content.attrs)] + items[cursor..];
      cursor := cursor + 1;
    }

    /**
     * The Backspace handler.  It acts only at offset 0, where it looks at the node before the
     * cursor in the same paragraph; there is none at offset 0, so its deletion never runs and the
     * handler always leaves the event to the editor's default.
     */
    method Backspace() returns (handled: bool)
      requires Valid()
      ensures !handled
    {
      if cursor == 0 {
        var before := NodeBefore();
        if IsVariableNode(before) {
          // The source deletes [pos - nodeSize, pos) and returns true here.
          assert false;
        }
      }
      return false;
    }

    /** The corrected Backspace handler, mirroring Delete: a variable node right before the
        cursor is removed as one unit and the event is handled; otherwise nothing changes and the
        event goes to the default. */
    method BackspaceIntended() returns (handled: bool)
      requires Valid()
      modifies this
      ensures Valid()
      ensures handled <==> old(cursor) > 0 && old(items)[old(cursor) - 1].Variable?
      ensures handled ==> items == old(items)[..old(cursor) - 1] + old(items)[old(cursor)..] &&
                          cursor == old(cursor) - 1
      ensures !handled ==> items == old(items) && cursor == old(cursor)
    {
      var before := NodeBefore();
      if IsVariableNode(before) {
        items := items[..cursor - 1] + items[cursor..];
        cursor := cursor - 1;
        return true;
      }
      return false;
    }

    /** The Delete handler: a variable node right after the cursor is removed as one unit and the
        event is handled; otherwise nothing changes and the event goes to the default. */
    method Delete() returns (handled: bool)
      requires Valid()
      modifies this
      ensures Valid()
      ensures handled <==> old(cursor) < |old(items)| && old(items)[old(cursor)].Variable?
      ensures handled ==> items == old(items)[..old(cursor)] + old(items)[old(cursor) + 1..]
      ensures !handled ==> items == old(items)
      ensures cursor == old(cursor)
    {
      var after := NodeAfter();
      if IsVariableNode(after) {
        // tr.delete(pos, pos + nodeSize): an atom's size is one position.
        items := items[..cursor] + items[cursor + 1..];
        return true;
      }
      return false;
    }
  }

  /** A paragraph holding one variable node, with the cursor right after it: the handler as
      written leaves the node to the default handling, while the corrected handler removes it. */
  method BackspaceAfterVariable(attrs: VariableAttrs) returns (nodeBeforeIsVariable: bool, handled: bool,
                                                              intendedHandled: bool, intendedItems: seq<Inline>)
    ensures nodeBeforeIsVariable && !handled
    ensures intendedHandled && intendedItems == []
  {
    var p := new Paragraph([Variable(attrs)], 1);
    nodeBeforeIsVariable := IsVariableNode(p.NodeBefore());
    handled := p.Backspace();
    var q := new Paragraph([Variable(attrs)], 1);
    intendedHandled := q.BackspaceIntended();
    intendedItems := q.items;
  }

  /** Deleting a variable node removes exactly its key from the fill walk, keeping the others in
      order. */
  lemma {:induction false} DeleteVariableKeys(items: seq<Inline>, i: nat)
    requires i < |items| && items[i].Variable?
    ensures VariableKeys(items) ==
      VariableKeys(items[..i]) + [items[i].attrs.key] + VariableKeys(items[i + 1..])
    ensures VariableKeys(items[..i] + items[i + 1..]) ==
      VariableKeys(items[..i]) + VariableKeys(items[i + 1..])
  {
    VariableKeysAppend(items[..i], items[i..]);
    assert items == items[..i] + items[i..];
    assert items[i..][1..] == items[i + 1..];
    VariableKeysAppend(items[..i], items[i + 1..]);
  }

  /** A key is visited exactly when some variable node carries it. */
  lemma {:induction false} VariableKeysMembers(items: seq<Inline>, key: Option<string>)
    ensures key in VariableKeys(items) <==>
      exists i :: 0 <= i < |items| && items[i].Variable? && items[i].attrs.key == key
    decreases |items|
  {
    if items != [] {
      VariableKeysMembers(items[1..], key);
      if exists i :: 0 <= i < |items[1..]| && items[1..][i].Variable? && items[1..][i].attrs.key == key {
        var i :| 0 <= i < |items[1..]| && items[1..][i].Variable? && items[1..][i].attrs.key == key;
        assert items[i + 1] == items[1..][i];
      }
      if exists i :: 0 <= i < |items| && items[i].Variable? && items[i].attrs.key == key {
        var i :| 0 <= i < |items| && items[i].Variable? && items[i].attrs.key == key;
        if i > 0 { assert items[1..][i - 1] == items[i]; }
      }
    }
  }

  /** One item contributes its key when it is a variable node, and nothing otherwise. */
  lemma VariableKeysSingle(x: Inline)
    ensures VariableKeys([x]) == if x.Variable? then [x.attrs.key] else []
  {
    assert [x][1..] == [];
  }

  /** The walk over two runs of items visits the first run's keys, then the second's. */
  lemma {:induction false} VariableKeysAppend(a: seq<Inline>, b: seq<Inline>)
    ensures VariableKeys(a + b) == VariableKeys(a) + VariableKeys(b)
    decreases |a|
  {
    if a == [] {
      assert a + b == b;
    } else {
      assert (a + b)[0] == a[0];
      assert (a + b)[1..] == a[1..] + b;
      VariableKeysAppend(a[1..], b);
    }
  }
}
