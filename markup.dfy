/**
  The markup extractor: a parsed HTML document, the candidates each element
  offers (its text content and its localizable attributes), and the run over
  all files.
 */
module Markup {
  import opened Wrappers
  import opened Text
  import opened Common
  import opened Results

  /** A node of a parsed document: text, or an element with its attributes
      (names as the parser lower-cased them) and its children. */
  datatype Dom = TextNode(data: string) | Element(attributes: map<string, string>, children: seq<Dom>)

  /** `textContent` of a node: for an element, the data of all its text
      descendants in tree order. */
  function TextContent(n: Dom): string
    decreases n, 1
  {
    match n
    case TextNode(data) => data
    case Element(_, children) => TextContentAll(children)
  }

  function TextContentAll(nodes: seq<Dom>): string
    decreases nodes, 0
  {
    if nodes == [] then [] else TextContent(nodes[0]) + TextContentAll(nodes[1..])
  }

  /** `getElementsByTagName('*')`: every element, in tree order. */
  function ElementsOf(n: Dom): seq<Dom>
    decreases n, 1
  {
    match n
    case TextNode(_) => []
    case Element(_, children) => [n] + ElementsOfAll(children)
  }

  function ElementsOfAll(nodes: seq<Dom>): seq<Dom>
    decreases nodes, 0
  {
    if nodes == [] then [] else ElementsOf(nodes[0]) + ElementsOfAll(nodes[1..])
  }

  lemma {:induction false} ElementsAreElements(n: Dom)
    ensures forall i :: 0 <= i < |ElementsOf(n)| ==> ElementsOf(n)[i].Element?
    decreases n, 1
  {
    if n.Element? {
      ElementsAreElementsAll(n.children);
    }
  }

  lemma {:induction false} ElementsAreElementsAll(nodes: seq<Dom>)
    ensures forall i :: 0 <= i < |ElementsOfAll(nodes)| ==> ElementsOfAll(nodes)[i].Element?
    decreases nodes, 0
  {
    if nodes != [] {
      ElementsAreElements(nodes[0]);
      ElementsAreElementsAll(nodes[1..]);
      var a := ElementsOf(nodes[0]);
      var b := ElementsOfAll(nodes[1..]);
      assert forall i :: 0 <= i < |a| ==> (a + b)[i] == a[i];
      assert forall i :: |a| <= i < |a + b| ==> (a + b)[i] == b[i - |a|];
    }
  }

  lemma {:induction false} ChildElementsAreListed(nodes: seq<Dom>, i: nat, x: Dom)
    requires i < |nodes| && x in ElementsOf(nodes[i])
    ensures x in ElementsOfAll(nodes)
    decreases nodes
  {
    if i > 0 {
      ChildElementsAreListed(nodes[1..], i - 1, x);
    }
  }

  /** Every element is visited: an element comes first in its own list, and
      every element below a child is in it too. */
  lemma EveryElementIsListed(n: Dom, i: nat, x: Dom)
    requires n.Element? && i < |n.children| && x in ElementsOf(n.children[i])
    ensures ElementsOf(n)[0] == n
    ensures x in ElementsOf(n)
  {
    ChildElementsAreListed(n.children, i, x);
  }

  // ---- Candidates of one element --------------------------------------------

  /** `node.getAttribute(name)` followed by the truthiness test: the value
      when the attribute is present and not empty. */
  function AttributeContent(attributes: map<string, string>, name: string): Option<string> {
    if name in attributes && attributes[name] != [] then Some(attributes[name]) else None
  }

  /** The values of the present, non-empty attributes among `names`, in the
      order of `names`. */
  function AttributeValues(attributes: map<string, string>, names: seq<string>): seq<string> {
    if names == [] then []
    else
      var content := AttributeContent(attributes, names[|names| - 1]);
      AttributeValues(attributes, names[..|names| - 1]) + (if content.Some? then [content.value] else [])
  }

  /** The texts gathered from one element: its text content if not empty,
      then its localizable attributes in list order. */
  function Candidates(textContent: string, attributes: map<string, string>): seq<string> {
    (if textContent != [] then [textContent] else []) + AttributeValues(attributes, LOCALIZABLE_ATTRIBUTES)
  }

  /** The per-element loop: `phrases` starts with the text content and grows
      by one entry for each localizable attribute that has a value. */
  method CollectCandidates(textContent: string, attributes: map<string, string>) returns (phrases: seq<string>)
    ensures phrases == Candidates(textContent, attributes)
  {
    phrases := if textContent != [] then [textContent] else [];
    var k := 0;
    while k < |LOCALIZABLE_ATTRIBUTES|
      invariant 0 <= k <= |LOCALIZABLE_ATTRIBUTES|
      invariant phrases == (if textContent != [] then [textContent] else []) +
                           AttributeValues(attributes, LOCALIZABLE_ATTRIBUTES[..k])
    {
      var attributeName := LOCALIZABLE_ATTRIBUTES[k];
      var attributeContent := AttributeContent(attributes, attributeName);
      assert LOCALIZABLE_ATTRIBUTES[..k + 1][..k] == LOCALIZABLE_ATTRIBUTES[..k];
      if attributeContent.Some? {
        phrases := phrases + [attributeContent.value];
      }
      k := k + 1;
    }
    assert LOCALIZABLE_ATTRIBUTES[..k] == LOCALIZABLE_ATTRIBUTES;
  }

  /** A value is gathered from the attributes exactly when one of `names`
      carries it. */
  lemma {:induction false} AttributeValuesMeans(attributes: map<string, string>, names: seq<string>, v: string)
    ensures v in AttributeValues(attributes, names) <==>
      v != [] && exists i :: 0 <= i < |names| && names[i] in attributes && attributes[names[i]] == v
  {
    if names != [] {
      var init := names[..|names| - 1];
      AttributeValuesMeans(attributes, init, v);
      if exists i :: 0 <= i < |init| && init[i] in attributes && attributes[init[i]] == v {
        var i :| 0 <= i < |init| && init[i] in attributes && attributes[init[i]] == v;
        assert names[i] == init[i];
      }
      if exists i :: 0 <= i < |names| && names[i] in attributes && attributes[names[i]] == v {
        var i :| 0 <= i < |names| && names[i] in attributes && attributes[names[i]] == v;
        if i < |init| {
          assert init[i] == names[i];
        }
      }
    }
  }

  /** A text is a candidate exactly when it is the non-empty text content
      or the non-empty value of a localizable attribute. */
  lemma CandidatesMeans(textContent: string, attributes: map<string, string>, v: string)
    ensures v in Candidates(textContent, attributes) <==>
      (v == textContent && v != []) ||
      (v != [] && exists name :: name in LOCALIZABLE_ATTRIBUTES && name in attributes && attributes[name] == v)
  {
    AttributeValuesMeans(attributes, LOCALIZABLE_ATTRIBUTES, v);
    if v != [] && exists name :: name in LOCALIZABLE_ATTRIBUTES && name in attributes && attributes[name] == v {
      var name :| name in LOCALIZABLE_ATTRIBUTES && name in attributes && attributes[name] == v;
      var i :| 0 <= i < |LOCALIZABLE_ATTRIBUTES| && LOCALIZABLE_ATTRIBUTES[i] == name;
    }
  }

  /** An attribute outside the list never changes what is gathered. */
  lemma {:induction false} OtherAttributesAreIgnored(attributes: map<string, string>, names: seq<string>, name: string, value: string)
    requires name !in names
    ensures AttributeValues(attributes[name := value], names) == AttributeValues(attributes, names)
  {
    if names != [] {
      assert names[|names| - 1] != name;
      OtherAttributesAreIgnored(attributes, names[..|names| - 1], name, value);
    }
  }

  lemma NonLocalizableAttributeIsIgnored(textContent: string, attributes: map<string, string>, name: string, value: string)
    requires name !in LOCALIZABLE_ATTRIBUTES
    ensures Candidates(textContent, attributes[name := value]) == Candidates(textContent, attributes)
  {
    OtherAttributesAreIgnored(attributes, LOCALIZABLE_ATTRIBUTES, name, value);
  }

  /** An element with no localizable attribute offers its text alone. */
  lemma {:induction false} NoLocalizableAttributes(attributes: map<string, string>, names: seq<string>)
    requires forall i :: 0 <= i < |names| ==> names[i] !in attributes
    ensures AttributeValues(attributes, names) == []
  {
    if names != [] {
      NoLocalizableAttributes(attributes, names[..|names| - 1]);
    }
  }

  // ---- The document ---------------------------------------------------------

  /** Each text as a present phrase. */
  function Somes(texts: seq<string>): (r: seq<Option<string>>) {
    seq(|texts|, i requires 0 <= i < |texts| => Some(texts[i]))
  }

  lemma SomesSnoc(texts: seq<string>, k: nat)
    requires k < |texts|
    ensures Somes(texts[..k + 1]) == Somes(texts[..k]) + [Some(texts[k])]
  {
  }

  /** The phrases handed to `addPhraseToResult` for one node: its
      candidates when it is an element, nothing for a text node. */
  function NodePhrases(e: Dom): seq<Option<string>> {
    if e.Element? then Somes(Candidates(TextContent(e), e.attributes)) else []
  }

  /** The phrases handed to `addPhraseToResult` for the elements in order. */
  function ElementPhrases(elements: seq<Dom>): seq<Option<string>> {
    if elements == [] then []
    else ElementPhrases(elements[..|elements| - 1]) + NodePhrases(elements[|elements| - 1])
  }

  lemma ElementPhrasesSnoc(elements: seq<Dom>, j: nat)
    requires j < |elements| && elements[j].Element?
    ensures ElementPhrases(elements[..j + 1]) ==
      ElementPhrases(elements[..j]) + Somes(Candidates(TextContent(elements[j]), elements[j].attributes))
  {
    assert elements[..j + 1][..j] == elements[..j];
  }

  /** The phrases a whole document hands to `addPhraseToResult`. */
  function DocumentPhrases(document: Dom): seq<Option<string>> {
    ElementPhrases(ElementsOf(document))
  }

  /** `for (const phrase of phrases) addPhraseToResult(result, entry, phrase)`. */
  method AddEach(result: Result, entry: string, phrases: seq<string>)
    modifies result
    ensures result.Snapshot() == AddAll(old(result.Snapshot()), entry, Somes(phrases))
  {
    var k := 0;
    while k < |phrases|
      invariant 0 <= k <= |phrases|
      invariant result.Snapshot() == AddAll(old(result.Snapshot()), entry, Somes(phrases[..k]))
    {
      SomesSnoc(phrases, k);
      AddAllSnoc(old(result.Snapshot()), entry, Somes(phrases[..k]), Some(phrases[k]));
      result.AddPhraseToResult(entry, Some(phrases[k]));
      k := k + 1;
    }
    assert phrases[..k] == phrases;
  }

  /** The loop over `getElementsByTagName('*')` for one document. */
  method VisitElements(result: Result, entry: string, document: Dom)
    modifies result
    ensures result.Snapshot() == AddAll(old(result.Snapshot()), entry, DocumentPhrases(document))
  {
    var elements := ElementsOf(document);
    ElementsAreElements(document);
    var j := 0;
    while j < |elements|
      invariant 0 <= j <= |elements|
      invariant result.Snapshot() == AddAll(old(result.Snapshot()), entry, ElementPhrases(elements[..j]))
    {
      var node := elements[j];
      var phrases := CollectCandidates(TextContent(node), node.attributes);
      ElementPhrasesSnoc(elements, j);
      AddAllAppend(old(result.Snapshot()), entry, ElementPhrases(elements[..j]), Somes(phrases));
      AddEach(result, entry, phrases);
      j := j + 1;
    }
    assert elements[..j] == elements;
  }

  /** `parse` in the markup extractor: every file is loaded as a document and
      each of its elements hands its candidates to `addPhraseToResult` under
      the file's path. */
  method Parse(entries: seq<string>, loadDocument: string -> Option<Dom>) returns (result: Result, error: Option<string>)
    ensures fresh(result)
    ensures error.None? ==> Run(Empty, entries, loadDocument, DocumentPhrases) == Done(result.Snapshot())
    ensures error.Some? ==> Run(Empty, entries, loadDocument, DocumentPhrases) == ParseError(error.value)
  {
    result := new Result();
    error := None;
    var i := 0;
    while i < |entries|
      invariant 0 <= i <= |entries|
      invariant Run(Empty, entries, loadDocument, DocumentPhrases) ==
                Run(result.Snapshot(), entries[i..], loadDocument, DocumentPhrases)
    {
      var entry := entries[i];
      var document := loadDocument(entry);
      if document.None? {
        error := Some(entry);
        return;
      }
      VisitElements(result, entry, document.value);
      assert entries[i..][1..] == entries[i + 1..];
      i := i + 1;
    }
  }

  // ---- Nested text -----------------------------------------------------------

  /** Text wrapped in one element per entry of `attributes`, the first
      outermost. */
  function Nest(attributes: seq<map<string, string>>, text: string): Dom
    decreases |attributes|
  {
    if attributes == [] then TextNode(text)
    else Element(attributes[0], [Nest(attributes[1..], text)])
  }

  lemma {:induction false} NestTextContent(attributes: seq<map<string, string>>, text: string)
    ensures TextContent(Nest(attributes, text)) == text
    decreases |attributes|
  {
    if attributes != [] {
      var inner := Nest(attributes[1..], text);
      NestTextContent(attributes[1..], text);
      assert TextContentAll([inner]) == TextContent(inner) + TextContentAll([]);
    }
  }

  /** The pieces `f` gives for each of `xs`, joined in order. */
  function Flatten<X, Y>(xs: seq<X>, f: X -> seq<Y>): seq<Y> {
    if xs == [] then [] else Flatten(xs[..|xs| - 1], f) + f(xs[|xs| - 1])
  }

  /** Dropping the last element of `xs + ys`, for a non-empty `ys`. */
  lemma AppendInit<T>(xs: seq<T>, ys: seq<T>)
    requires ys != []
    ensures (xs + ys)[..|xs + ys| - 1] == xs + ys[..|ys| - 1]
    ensures (xs + ys)[|xs + ys| - 1] == ys[|ys| - 1]
  {
  }

  lemma {:induction false} FlattenAppend<X, Y>(xs: seq<X>, ys: seq<X>, f: X -> seq<Y>)
    ensures Flatten(xs + ys, f) == Flatten(xs, f) + Flatten(ys, f)
    decreases |ys|
  {
    if ys == [] {
      assert xs + ys == xs;
    } else {
      var init := ys[..|ys| - 1];
      FlattenAppend(xs, init, f);
      AppendInit(xs, ys);
      var a, b, c := Flatten(xs, f), Flatten(init, f), f(ys[|ys| - 1]);
      assert (a + b) + c == a + (b + c);
    }
  }

  lemma {:induction false} ElementPhrasesIsFlatten(elements: seq<Dom>)
    ensures ElementPhrases(elements) == Flatten(elements, NodePhrases)
    decreases |elements|
  {
    if elements != [] {
      ElementPhrasesIsFlatten(elements[..|elements| - 1]);
    }
  }

  /** The phrases of two runs of nodes are those of the first, then those
      of the second. */
  lemma ElementPhrasesAppend(xs: seq<Dom>, ys: seq<Dom>)
    ensures ElementPhrases(xs + ys) == ElementPhrases(xs) + ElementPhrases(ys)
  {
    ElementPhrasesIsFlatten(xs + ys);
    ElementPhrasesIsFlatten(xs);
    ElementPhrasesIsFlatten(ys);
    FlattenAppend(xs, ys, NodePhrases);
  }

  /** The outermost element of a nest hands in exactly `text`. */
  lemma NestHead(attributes: seq<map<string, string>>, text: string)
    requires attributes != [] && text != []
    requires forall i :: 0 <= i < |LOCALIZABLE_ATTRIBUTES| ==> LOCALIZABLE_ATTRIBUTES[i] !in attributes[0]
    ensures ElementPhrases([Nest(attributes, text)]) == [Some(text)]
  {
    var n := Nest(attributes, text);
    NestTextContent(attributes, text);
    NoLocalizableAttributes(attributes[0], LOCALIZABLE_ATTRIBUTES);
    assert Candidates(text, attributes[0]) == [text];
    assert Somes([text]) == [Some(text)];
    assert [n][..0] == [];
  }

  /** The elements of a nest: the outermost, then those of the rest. */
  lemma NestElements(attributes: seq<map<string, string>>, text: string)
    requires attributes != []
    ensures ElementsOf(Nest(attributes, text)) == [Nest(attributes, text)] + ElementsOf(Nest(attributes[1..], text))
  {
    var inner := Nest(attributes[1..], text);
    assert ElementsOfAll([inner]) == ElementsOf(inner) + ElementsOfAll([]);
  }

  /** Text inside nested elements that carry no localizable attribute
      reaches the aggregator once for every element around it. */
  lemma {:induction false} NestedTextIsHandedPerElement(attributes: seq<map<string, string>>, text: string)
    requires text != []
    requires forall k, i :: 0 <= k < |attributes| && 0 <= i < |LOCALIZABLE_ATTRIBUTES| ==>
      LOCALIZABLE_ATTRIBUTES[i] !in attributes[k]
    ensures DocumentPhrases(Nest(attributes, text)) == seq(|attributes|, _ => Some(text))
    decreases |attributes|
  {
    if attributes == [] {
      assert ElementsOf(TextNode(text)) == [];
    } else {
      var n := Nest(attributes, text);
      var inner := Nest(attributes[1..], text);
      assert forall k :: 0 <= k < |attributes[1..]| ==> attributes[1..][k] == attributes[k + 1];
      NestedTextIsHandedPerElement(attributes[1..], text);
      NestHead(attributes, text);
      NestElements(attributes, text);
      ElementPhrasesAppend([n], ElementsOf(inner));
      assert [Some(text)] + seq(|attributes| - 1, _ => Some(text)) == seq(|attributes|, _ => Some(text));
    }
  }

  /** However deep the nesting, such text is filed once, as if handed in a
      single time. */
  lemma NestedTextIsFiledOnce(b: Buckets, path: string, attributes: seq<map<string, string>>, text: string)
    requires attributes != [] && text != []
    requires forall k, i :: 0 <= k < |attributes| && 0 <= i < |LOCALIZABLE_ATTRIBUTES| ==>
      LOCALIZABLE_ATTRIBUTES[i] !in attributes[k]
    ensures AddAll(b, path, DocumentPhrases(Nest(attributes, text))) == Add(b, path, Some(text))
  {
    var handed := DocumentPhrases(Nest(attributes, text));
    NestedTextIsHandedPerElement(attributes, text);
    assert handed[0] == Some(text);
    AddAllDependsOnSet(b, path, handed, [Some(text)]);
    AddAllSnoc(b, path, [], Some(text));
    assert [] + [Some(text)] == [Some(text)];
  }
}
