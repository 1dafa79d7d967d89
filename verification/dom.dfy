/** The parsed HTML tree as lxml presents it, and the CSS selectors the
    extractor compiles. An element carries its attributes in source order, the
    text before its first child (`text`), its children, and the text that
    follows its own end tag up to the next sibling (`tail`). */
module Dom {
  import opened Wrappers

  datatype Attribute = Attribute(name: string, value: string)

  datatype Element = Element(
    tag: string,
    attrs: seq<Attribute>,
    text: string,
    children: seq<Element>,
    tail: string)

  /** First value stored under `name` in `attrs`. */
  function Lookup(attrs: seq<Attribute>, name: string): (r: Option<string>)
    ensures r.None? <==> forall i :: 0 <= i < |attrs| ==> attrs[i].name != name
    ensures r.Some? ==> exists i :: 0 <= i < |attrs| && attrs[i] == Attribute(name, r.value)
                                    && forall j :: 0 <= j < i ==> attrs[j].name != name
  {
    if |attrs| == 0 then None
    else if attrs[0].name == name then Some(attrs[0].value)
    else
      var r := Lookup(attrs[1..], name);
      assert forall i :: 1 <= i < |attrs| ==> attrs[i] == attrs[1..][i - 1];
      if r.Some? then
        var i :| 0 <= i < |attrs[1..]| && attrs[1..][i] == Attribute(name, r.value)
                 && forall j :: 0 <= j < i ==> attrs[1..][j].name != name;
        assert attrs[i + 1] == Attribute(name, r.value);
        r
      else r
  }

  /** `el.get(name)`: the element's attribute value, or none when it has no such attribute. */
  function Get(e: Element, name: string): Option<string> {
    Lookup(e.attrs, name)
  }

  /** The whitespace XPath's `normalize-space` collapses. */
  predicate IsXmlSpace(c: char) {
    c == ' ' || c == '\t' || c == '\n' || c == '\r'
  }

  /** `c` occurs in `v` at position `i` as a whole whitespace-delimited token. */
  predicate TokenAt(v: string, c: string, i: nat) {
    && i + |c| <= |v|
    && v[i..i + |c|] == c
    && (i == 0 || IsXmlSpace(v[i - 1]))
    && (i + |c| == |v| || IsXmlSpace(v[i + |c|]))
  }

  /** The CSS `.c` test: `c` is one of the whitespace-separated tokens of the
      element's `class` attribute. */
  predicate HasClass(e: Element, c: string) {
    var v := Get(e, "class").GetOr("");
    |c| > 0 && exists i: nat | i <= |v| :: TokenAt(v, c, i)
  }

  /** lxml's `text_content()`: every text node below the element, in document
      order, excluding the element's own tail. */
  function TextContent(e: Element): string
    decreases e, |e.children| + 1
  {
    e.text + ChildrenText(e, 0)
  }

  function ChildrenText(p: Element, i: nat): string
    requires i <= |p.children|
    decreases p, |p.children| - i
  {
    if i == |p.children| then ""
    else TextContent(p.children[i]) + p.children[i].tail + ChildrenText(p, i + 1)
  }

  /** lxml's `tostring(el, encoding='unicode')`: the element's markup followed by
      its tail (lxml serialises the tail unless told otherwise). */
  function Markup(e: Element): string {
    OuterMarkup(e) + e.tail
  }

  function OuterMarkup(e: Element): string
    decreases e, |e.children| + 1
  {
    "<" + e.tag + AttrsMarkup(e.attrs) + ">" + e.text + ChildrenMarkup(e, 0) + "</" + e.tag + ">"
  }

  function ChildrenMarkup(p: Element, i: nat): string
    requires i <= |p.children|
    decreases p, |p.children| - i
  {
    if i == |p.children| then ""
    else OuterMarkup(p.children[i]) + p.children[i].tail + ChildrenMarkup(p, i + 1)
  }

  function AttrsMarkup(attrs: seq<Attribute>): string {
    if |attrs| == 0 then ""
    else " " + attrs[0].name + "=\"" + attrs[0].value + "\"" + AttrsMarkup(attrs[1..])
  }

  /** One element visited in document order, with the chain of its ancestors
      that lie inside the searched scope (outermost first). */
  datatype Visit = Visit(node: Element, ancestors: seq<Element>)

  /** The scope element and its descendants in document (pre-)order: the axis
      `descendant-or-self::*` that lxml's compiled CSS selectors search. */
  function Walk(e: Element, ancestors: seq<Element>): (vs: seq<Visit>)
    ensures |vs| > 0 && vs[0] == Visit(e, ancestors)
    decreases e, |e.children| + 1
  {
    [Visit(e, ancestors)] + WalkChildren(e, 0, ancestors + [e])
  }

  function WalkChildren(p: Element, i: nat, ancestors: seq<Element>): seq<Visit>
    requires i <= |p.children|
    decreases p, |p.children| - i
  {
    if i == |p.children| then []
    else Walk(p.children[i], ancestors) + WalkChildren(p, i + 1, ancestors)
  }

  /** A compound selector: an optional type (tag) test, an optional class test
      and an optional attribute-equals test, all of which must hold. */
  datatype Compound = Compound(tag: Option<string>, cls: Option<string>, attr: Option<Attribute>)

  /** `Single(c)` is `c`; `Descendant(a, t)` is the combinator `a t`. */
  datatype Selector = Single(c: Compound) | Descendant(ancestor: Compound, target: Compound)

  predicate Matches(c: Compound, e: Element) {
    && (c.tag.None? || e.tag == c.tag.value)
    && (c.cls.None? || HasClass(e, c.cls.value))
    && (c.attr.None? || Get(e, c.attr.value.name) == Some(c.attr.value.value))
  }

  /** The element the selector tests directly. */
  function Target(sel: Selector): Compound {
    match sel
    case Single(c) => c
    case Descendant(_, t) => t
  }

  predicate Applies(sel: Selector, v: Visit) {
    match sel
    case Single(c) => Matches(c, v.node)
    case Descendant(a, t) =>
      Matches(t, v.node) && exists k :: 0 <= k < |v.ancestors| && Matches(a, v.ancestors[k])
  }

  function Filter(sel: Selector, vs: seq<Visit>): (r: seq<Element>)
    ensures |r| <= |vs|
    ensures forall x :: x in r ==> exists i :: 0 <= i < |vs| && Applies(sel, vs[i]) && vs[i].node == x
    ensures forall i :: 0 <= i < |vs| && Applies(sel, vs[i]) ==> vs[i].node in r
  {
    if |vs| == 0 then []
    else (if Applies(sel, vs[0]) then [vs[0].node] else []) + Filter(sel, vs[1..])
  }

  /** `CSSSelector(sel)(scope)`: every element of the scope (the scope element
      itself included) that the selector matches, in document order. For the
      descendant combinator the ancestor must itself lie inside the scope. */
  function Select(sel: Selector, scope: Element): (r: seq<Element>)
    ensures forall x :: x in r ==> exists v :: v in Walk(scope, []) && Applies(sel, v) && v.node == x
    ensures forall x :: x in r ==> Matches(Target(sel), x)
    ensures forall v :: v in Walk(scope, []) && Applies(sel, v) ==> v.node in r
  {
    Filter(sel, Walk(scope, []))
  }
}
