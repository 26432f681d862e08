/**
  The script extractor: the syntax tree of a JavaScript or JSX file, the
  evaluation of `+` chains of literals, the phrase each visited node
  contributes, and the run over all files.
 */
module Script {
  import opened Wrappers
  import opened Text
  import opened Common
  import opened Results

  /** The name of a JSX attribute: `title` or `xlink:title`. */
  datatype AttrName = JSXIdentifier(name: string) | JSXNamespacedName(namespace: string, name: string)

  /** The node kinds the extractor tells apart; every other kind is `Other`.
      A template literal keeps the raw text of its quasis and its embedded
      expressions. */
  datatype Node =
    | StringLiteral(value: string)
    | TemplateLiteral(quasis: seq<string>, expressions: seq<Node>)
    | BinaryExpression(operator: string, left: Node, right: Node)
    | JSXText(value: string)
    | JSXAttribute(attrName: AttrName, attrValue: Option<Node>)
    | ModuleDeclaration(body: seq<Node>)
    | Other(children: seq<Node>)

  // ---- `+` chains ------------------------------------------------------------

  /** A `+` node. */
  predicate IsPlus(n: Node) {
    n.BinaryExpression? && n.operator == "+"
  }

  /** A string or template literal, the leaves a phrase may be built from. */
  predicate IsLiteral(n: Node) {
    n.StringLiteral? || n.TemplateLiteral?
  }

  /** One side of a binary expression: a nested `+` is checked recursively,
      anything else must be a literal. */
  predicate ValidSide(side: Node)
    decreases side, 1
  {
    if IsPlus(side) then ValidateBinaryExpression(side) else IsLiteral(side)
  }

  /** Both sides are literals or `+` chains of literals. The operator of the
      expression itself is not looked at. */
  predicate ValidateBinaryExpression(expression: Node)
    requires expression.BinaryExpression?
    decreases expression, 0
  {
    ValidSide(expression.left) && ValidSide(expression.right)
  }

  /** The string a `+` chain of literals evaluates to; any other node gives
      the empty string. */
  function GetBinaryExpressionValue(node: Node): string {
    match node
    case StringLiteral(value) => value
    case TemplateLiteral(quasis, _) => Concat(quasis)
    case BinaryExpression(op, left, right) =>
      if op == "+" then GetBinaryExpressionValue(left) + GetBinaryExpressionValue(right) else []
    case _ => []
  }

  /** The leaves reached from `n` through nested `+` nodes, left to right. */
  function PlusLeaves(n: Node): (leaves: seq<Node>)
    ensures |leaves| > 0
    ensures forall i :: 0 <= i < |leaves| ==> !IsPlus(leaves[i])
  {
    if IsPlus(n) then PlusLeaves(n.left) + PlusLeaves(n.right) else [n]
  }

  /** The value a single leaf contributes to the concatenation. */
  function LeafText(n: Node): string {
    match n
    case StringLiteral(value) => value
    case TemplateLiteral(quasis, _) => Concat(quasis)
    case _ => []
  }

  function LeafTexts(leaves: seq<Node>): seq<string> {
    if leaves == [] then [] else [LeafText(leaves[0])] + LeafTexts(leaves[1..])
  }

  lemma {:induction false} LeafTextsAppend(a: seq<Node>, b: seq<Node>)
    ensures LeafTexts(a + b) == LeafTexts(a) + LeafTexts(b)
  {
    if a != [] {
      assert (a + b)[1..] == a[1..] + b;
      LeafTextsAppend(a[1..], b);
    } else {
      assert a + b == b;
    }
  }

  /** Every element of `leaves` is a literal. */
  predicate AllLiteral(leaves: seq<Node>) {
    forall i :: 0 <= i < |leaves| ==> IsLiteral(leaves[i])
  }

  lemma AllLiteralAppend(a: seq<Node>, b: seq<Node>)
    ensures AllLiteral(a + b) <==> AllLiteral(a) && AllLiteral(b)
  {
    if AllLiteral(a + b) {
      forall i | 0 <= i < |a| ensures IsLiteral(a[i]) {
        assert (a + b)[i] == a[i];
      }
      forall i | 0 <= i < |b| ensures IsLiteral(b[i]) {
        assert (a + b)[|a| + i] == b[i];
      }
    }
  }

  /** A side is valid exactly when every leaf of its `+` chain is a literal. */
  lemma {:induction false} ValidSideIffLiteralLeaves(side: Node)
    ensures ValidSide(side) <==> AllLiteral(PlusLeaves(side))
    decreases side
  {
    if IsPlus(side) {
      ValidSideIffLiteralLeaves(side.left);
      ValidSideIffLiteralLeaves(side.right);
      AllLiteralAppend(PlusLeaves(side.left), PlusLeaves(side.right));
    } else {
      assert PlusLeaves(side)[0] == side;
    }
  }

  /** A binary expression is valid exactly when every leaf under its two
      sides is a string or template literal, whatever its own operator. */
  lemma ValidateIffLiteralLeaves(e: Node)
    requires e.BinaryExpression?
    ensures ValidateBinaryExpression(e) <==> AllLiteral(PlusLeaves(e.left)) && AllLiteral(PlusLeaves(e.right))
  {
    ValidSideIffLiteralLeaves(e.left);
    ValidSideIffLiteralLeaves(e.right);
  }

  /** The value of a `+` chain is its leaves' texts, in order, concatenated. */
  lemma {:induction false} ValueIsLeavesConcatenated(n: Node)
    ensures GetBinaryExpressionValue(n) == Concat(LeafTexts(PlusLeaves(n)))
    decreases n
  {
    if IsPlus(n) {
      ValueIsLeavesConcatenated(n.left);
      ValueIsLeavesConcatenated(n.right);
      LeafTextsAppend(PlusLeaves(n.left), PlusLeaves(n.right));
      ConcatAppend(LeafTexts(PlusLeaves(n.left)), LeafTexts(PlusLeaves(n.right)));
    } else {
      assert LeafTexts([n]) == [LeafText(n)] + LeafTexts([]);
      assert Concat([LeafText(n)]) == LeafText(n) + Concat([]);
      match n
      case BinaryExpression(_, _, _) =>
      case StringLiteral(_) =>
      case TemplateLiteral(_, _) =>
      case JSXText(_) =>
      case JSXAttribute(_, _) =>
      case ModuleDeclaration(_) =>
      case Other(_) =>
    }
  }

  /** A binary expression whose own operator is not `+` evaluates to the
      empty string even when it passes validation. */
  lemma NonPlusValueIsEmpty(e: Node)
    requires e.BinaryExpression? && e.operator != "+"
    ensures GetBinaryExpressionValue(e) == []
  {
  }

  // ---- The visitor ------------------------------------------------------------

  /** `LOCALIZABLE_ATTRIBUTES.includes(name)`. */
  predicate IsLocalizable(name: string) {
    name in LOCALIZABLE_ATTRIBUTES
  }

  /** The name an attribute is looked up by: the local part of a namespaced
      name. */
  function AttributeName(name: AttrName): string {
    match name
    case JSXIdentifier(n) => n
    case JSXNamespacedName(_, n) => n
  }

  /** What the `enter` visitor passes to `addPhraseToResult` for `node`
      reached from `parent`, or `None` when it returns early. Every other
      case passes the empty string at least. */
  function NodePhrase(node: Node, parent: Node): (phrase: Option<string>)
    ensures phrase.None? <==> parent.ModuleDeclaration? || parent.BinaryExpression? || node.ModuleDeclaration?
  {
    if parent.ModuleDeclaration? || parent.BinaryExpression? || node.ModuleDeclaration? then None
    else if node.StringLiteral? && !parent.JSXAttribute? then Some(node.value)
    else if node.StringLiteral? && parent.JSXAttribute? then
      Some(if IsLocalizable(AttributeName(parent.attrName)) then node.value else [])
    else if node.TemplateLiteral? then Some(Concat(node.quasis))
    else if node.BinaryExpression? && ValidateBinaryExpression(node) then Some(GetBinaryExpressionValue(node))
    else if node.JSXText? then Some(node.value)
    else Some([])
  }

  /** A string literal keeps its value, except as the value of an attribute
      that is not localizable, where it contributes nothing. */
  lemma StringLiteralPhrase(value: string, parent: Node)
    requires !parent.ModuleDeclaration? && !parent.BinaryExpression?
    ensures parent.JSXAttribute? && !IsLocalizable(AttributeName(parent.attrName)) ==>
      NodePhrase(StringLiteral(value), parent) == Some([])
    ensures !(parent.JSXAttribute? && !IsLocalizable(AttributeName(parent.attrName))) ==>
      NodePhrase(StringLiteral(value), parent) == Some(value)
  {
  }

  /** The operands of a binary expression are never harvested on their own;
      the text of a chain comes from its root alone. */
  lemma OperandsAreNotHarvested(e: Node)
    requires e.BinaryExpression?
    ensures NodePhrase(e.left, e) == None && NodePhrase(e.right, e) == None
  {
  }

  /** Whatever `enter` passes on is a phrase the source text spells out:
      a literal's value, a template's raw text, a `+` chain's value, JSX text,
      or nothing at all. */
  lemma PhraseOrigin(node: Node, parent: Node)
    requires NodePhrase(node, parent).Some? && NodePhrase(node, parent).value != []
    ensures node.StringLiteral? || node.TemplateLiteral? || node.JSXText? ||
            (node.BinaryExpression? && ValidateBinaryExpression(node))
    ensures node.BinaryExpression? ==> NodePhrase(node, parent).value == Concat(LeafTexts(PlusLeaves(node)))
    ensures node.TemplateLiteral? ==> NodePhrase(node, parent).value == Concat(node.quasis)
  {
    if node.BinaryExpression? {
      ValueIsLeavesConcatenated(node);
    }
  }

  // ---- The traversal ----------------------------------------------------------

  /** A node as the visitor sees it: itself and its parent. */
  datatype Visit = Visit(node: Node, parent: Node)

  /** The children of a node, in source order. */
  function Children(n: Node): seq<Node> {
    match n
    case StringLiteral(_) => []
    case TemplateLiteral(_, expressions) => expressions
    case BinaryExpression(_, left, right) => [left, right]
    case JSXText(_) => []
    case JSXAttribute(_, value) => if value.Some? then [value.value] else []
    case ModuleDeclaration(body) => body
    case Other(children) => children
  }

  /** `node` is entered, then its descendants, depth first. */
  function Visits(node: Node, parent: Node): seq<Visit>
    decreases node, 1
  {
    [Visit(node, parent)] + Below(node)
  }

  /** The visits of the descendants of `n`. */
  function Below(n: Node): seq<Visit>
    decreases n, 0
  {
    match n
    case StringLiteral(_) => []
    case TemplateLiteral(_, expressions) => VisitsAll(expressions, n)
    case BinaryExpression(_, left, right) => Visits(left, n) + Visits(right, n)
    case JSXText(_) => []
    case JSXAttribute(_, value) => if value.Some? then Visits(value.value, n) else []
    case ModuleDeclaration(body) => VisitsAll(body, n)
    case Other(children) => VisitsAll(children, n)
  }

  function VisitsAll(nodes: seq<Node>, parent: Node): seq<Visit>
    decreases nodes, 2
  {
    if nodes == [] then [] else Visits(nodes[0], parent) + VisitsAll(nodes[1..], parent)
  }

  /** Each of `nodes` is entered with `parent` as its parent. */
  lemma {:induction false} VisitsAllEntersEach(nodes: seq<Node>, parent: Node, i: nat)
    requires i < |nodes|
    ensures Visit(nodes[i], parent) in VisitsAll(nodes, parent)
    decreases nodes
  {
    if i > 0 {
      VisitsAllEntersEach(nodes[1..], parent, i - 1);
    }
  }

  /** Every child is entered, with `n` as its parent, whether or not `n`
      itself was skipped: the visitor never prunes the walk. */
  lemma ChildrenAreVisited(n: Node, parent: Node, i: nat)
    requires i < |Children(n)|
    ensures Visit(Children(n)[i], n) in Visits(n, parent)
  {
    match n
    case BinaryExpression(_, left, right) =>
      assert Visits(left, n)[0] == Visit(left, n);
      assert Visits(right, n)[0] == Visit(right, n);
      assert Below(n) == Visits(left, n) + Visits(right, n);
      if i == 0 {
        assert Visits(n, parent)[1] == Visit(left, n);
      } else {
        assert Visits(n, parent)[1 + |Visits(left, n)|] == Visit(right, n);
      }
    case JSXAttribute(_, value) =>
      assert Visits(n, parent)[1] == Visit(value.value, n);
    case TemplateLiteral(_, expressions) =>
      VisitsAllEntersEach(expressions, n, i);
    case ModuleDeclaration(body) =>
      VisitsAllEntersEach(body, n, i);
    case Other(children) =>
      VisitsAllEntersEach(children, n, i);
  }

  /** The visits over a whole file: the root is not entered itself. */
  function Walk(root: Node): seq<Visit> {
    Below(root)
  }

  /** The phrases the visitor hands to `addPhraseToResult` along `visits`. */
  function PhrasesAlong(visits: seq<Visit>): seq<Option<string>> {
    if visits == [] then []
    else
      var last := visits[|visits| - 1];
      var phrase := NodePhrase(last.node, last.parent);
      PhrasesAlong(visits[..|visits| - 1]) + (if phrase.Some? then [phrase] else [])
  }

  lemma PhrasesAlongSnoc(visits: seq<Visit>, i: nat)
    requires i < |visits|
    ensures var p := NodePhrase(visits[i].node, visits[i].parent);
      PhrasesAlong(visits[..i + 1]) == PhrasesAlong(visits[..i]) + (if p.Some? then [p] else [])
  {
    assert visits[..i + 1][..i] == visits[..i];
  }

  /** Every call the visitor makes passes a phrase, never `undefined`. */
  lemma {:induction false} PhrasesArePresent(visits: seq<Visit>)
    ensures forall k :: 0 <= k < |PhrasesAlong(visits)| ==> PhrasesAlong(visits)[k].Some?
  {
    if visits != [] {
      PhrasesArePresent(visits[..|visits| - 1]);
    }
  }

  /** The phrases a whole file hands to `addPhraseToResult`. */
  function FilePhrases(root: Node): seq<Option<string>> {
    PhrasesAlong(Walk(root))
  }

  /** `traverse(content, { enter })`: the visitor is entered at each node,
      in order, and passes the phrase it picks to `addPhraseToResult` under
      `entry`. */
  method Traverse(result: Result, entry: string, root: Node)
    modifies result
    ensures result.Snapshot() == AddAll(old(result.Snapshot()), entry, FilePhrases(root))
  {
    var visits := Walk(root);
    var j := 0;
    while j < |visits|
      invariant 0 <= j <= |visits|
      invariant result.Snapshot() == AddAll(old(result.Snapshot()), entry, PhrasesAlong(visits[..j]))
    {
      var visit := visits[j];
      var phrase := NodePhrase(visit.node, visit.parent);
      ghost var done := PhrasesAlong(visits[..j]);
      PhrasesAlongSnoc(visits, j);
      if phrase.Some? {
        assert PhrasesAlong(visits[..j + 1]) == done + [phrase];
        AddAllSnoc(old(result.Snapshot()), entry, done, phrase);
        result.AddPhraseToResult(entry, phrase);
      } else {
        assert PhrasesAlong(visits[..j + 1]) == done;
      }
      j := j + 1;
    }
    assert visits[..j] == visits;
  }

  /** `parse` in the script extractor: every file is parsed and walked, and
      each node the visitor does not skip hands its phrase to
      `addPhraseToResult` under the file's path. */
  method Parse(entries: seq<string>, parseFile: string -> Option<Node>) returns (result: Result, error: Option<string>)
    ensures fresh(result)
    ensures error.None? ==> Run(Empty, entries, parseFile, FilePhrases) == Done(result.Snapshot())
    ensures error.Some? ==> Run(Empty, entries, parseFile, FilePhrases) == ParseError(error.value)
  {
    result := new Result();
    error := None;
    var i := 0;
    while i < |entries|
      invariant 0 <= i <= |entries|
      invariant Run(Empty, entries, parseFile, FilePhrases) == Run(result.Snapshot(), entries[i..], parseFile, FilePhrases)
    {
      var entry := entries[i];
      var content := parseFile(entry);
      if content.None? {
        error := Some(entry);
        return;
      }
      Traverse(result, entry, content.value);
      assert entries[i..][1..] == entries[i + 1..];
      i := i + 1;
    }
  }

  // ---- Examples -------------------------------------------------------------

  /** `"Hello " + "World"` is one phrase; `"Hello " + name` is none. */
  lemma ConcatenationExamples()
    ensures NodePhrase(BinaryExpression("+", StringLiteral("Hello "), StringLiteral("World")), Other([])) == Some("Hello World")
    ensures NodePhrase(BinaryExpression("+", StringLiteral("Hello "), Other([])), Other([])) == Some([])
  {
    assert "Hello " + "World" == "Hello World";
  }

  /** `title="Save"` is harvested, `data-test-subj="foo"` is not. */
  lemma AttributeExamples()
    ensures NodePhrase(StringLiteral("Save"), JSXAttribute(JSXIdentifier("title"), Some(StringLiteral("Save")))) == Some("Save")
    ensures NodePhrase(StringLiteral("foo"), JSXAttribute(JSXIdentifier("data-test-subj"), Some(StringLiteral("foo")))) == Some([])
  {
    assert LOCALIZABLE_ATTRIBUTES[8] == "title";
  }

  /** `"Saved!" + ""` hands `Saved!` to the aggregator. */
  lemma SavedPhraseExample(text: string)
    requires text == "Saved!"
    ensures NodePhrase(BinaryExpression("+", StringLiteral(text), StringLiteral("")), Other([])) == Some(text)
  {
    var e := BinaryExpression("+", StringLiteral(text), StringLiteral(""));
    assert ValidSide(e.left) && ValidSide(e.right);
    assert ValidateBinaryExpression(e);
    assert GetBinaryExpressionValue(e) == text + "" == text;
  }

  /** The aggregator files `Saved!` as `Saved`: the trailing mark goes. */
  lemma SavedFiledExample(text: string)
    requires text == "Saved!"
    ensures Sanitize(text) == Some("Saved")
    ensures AcceptedPhrases(Some(text)) == {Sanitize(text).value} && IgnoredTexts(Some(text)) == {}
  {
    TrimOfTrimmed(text);
    assert NoBreak(text) by {
      forall j | 0 <= j < |text|
        ensures BreakAt(text, j) == 0
      {
        assert !IsSpace(text[j]);
      }
    }
    SanitizeExclamationExample(text);
    AddSingleLine(text);
  }
}
