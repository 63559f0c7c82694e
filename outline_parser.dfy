/**
 * The browser parser's `parseElement` (src/HTMLParser.tsx): one item per
 * element child and per non-blank text child, in document order, with an
 * indent level raised by outline markers such as `(1)`, `(a)` or `(A)` at the
 * start of a `p` or `div` element's content.
 *
 * `Step`, `ParseFrom` and `Parse` specify the walk as functions;
 * `ParseElement` is the walk itself, a loop over the child nodes with a local
 * indent stack, proved equal to `Parse`.  The lemmas state what the
 * specification promises.
 */
module OutlineParser {
  import opened Dom
  import opened Markers

  /**
   * The indent stack of one call, as the walk keeps it: it starts as
   * `[indentLevel]` and only ever grows by one level at a time, so it holds
   * `indentLevel, indentLevel + 1, ...` up to its top.
   */
  predicate ValidStack(stack: seq<int>, indentLevel: int) {
    |stack| > 0 && forall k :: 0 <= k < |stack| ==> stack[k] == indentLevel + k
  }

  function Top(stack: seq<int>): int
    requires |stack| > 0
  {
    stack[|stack| - 1]
  }

  /** The tags whose content is tested for an outline marker. */
  predicate IsOutlineTag(tagName: string) {
    tagName == "p" || tagName == "div"
  }

  /**
   * `stack.pop() || fallback`: the popped top, or `fallback` when the stack
   * was empty or its top was 0.
   */
  function PopOr(stack: seq<int>, fallback: int): (int, seq<int>) {
    if |stack| == 0 then (fallback, stack)
    else
      var top := stack[|stack| - 1];
      (if top == 0 then fallback else top, stack[..|stack| - 1])
  }

  /**
   * The new indent level of an element and the stack after it, as the
   * marker test decides them.
   */
  function Marked(tagName: string, content: string, indentLevel: int, stack: seq<int>): (int, seq<int>)
    requires |stack| > 0
  {
    if !IsOutlineTag(tagName) then (indentLevel, stack)
    else
      match BracketCapture(content)
      case None => (indentLevel, stack)
      case Some(bullet) =>
        match Classify(bullet)
        case None => (indentLevel, stack)
        case Some(NumericReturn) => PopOr(stack, indentLevel)
        case Some(_) => (Top(stack) + 1, stack + [Top(stack) + 1])
  }

  /** A `p`/`div` whose content starts with a digits or one-letter bracketed word. */
  predicate IsDescendElement(n: Node) {
    && n.Element?
    && IsOutlineTag(Lower(n.tag))
    && BracketCapture(n.outer).Some?
    && IsDescendWord(BracketCapture(n.outer).value)
  }

  /** A descend marker puts the element one level above the top of the stack, and pushes that level. */
  lemma MarkedDescends(tagName: string, content: string, indentLevel: int, stack: seq<int>)
    requires |stack| > 0
    requires IsOutlineTag(tagName) && BracketCapture(content).Some?
    requires IsDescendWord(BracketCapture(content).value)
    ensures Marked(tagName, content, indentLevel, stack) == (Top(stack) + 1, stack + [Top(stack) + 1])
  {
  }

  /**
   * Any other element (another tag, no leading bracketed word, or a word of
   * none of the three kinds) keeps the incoming level and leaves the stack
   * as it was.
   */
  lemma MarkedKeeps(tagName: string, content: string, indentLevel: int, stack: seq<int>)
    requires |stack| > 0
    requires !(IsOutlineTag(tagName) && BracketCapture(content).Some? && IsDescendWord(BracketCapture(content).value))
    ensures Marked(tagName, content, indentLevel, stack) == (indentLevel, stack)
  {
    CaptureNeverReturns(content);
    if BracketCapture(content).Some? {
      BracketCaptureMatches(content, BracketCapture(content).value);
      ClassifiedWords(BracketCapture(content).value);
    }
  }

  /**
   * The stack is never popped: the marker test either leaves it alone or
   * pushes the level one above its top, so it stays a run of consecutive
   * levels from `indentLevel`, and the element's level is at least
   * `indentLevel`.
   */
  lemma MarkedKeepsValid(tagName: string, content: string, indentLevel: int, stack: seq<int>)
    requires ValidStack(stack, indentLevel)
    ensures var (level, stack') := Marked(tagName, content, indentLevel, stack);
      && ValidStack(stack', indentLevel)
      && stack <= stack'
      && |stack'| <= |stack| + 1
      && indentLevel <= level
      && (level == indentLevel || level == Top(stack'))
  {
    if IsOutlineTag(tagName) && BracketCapture(content).Some? && IsDescendWord(BracketCapture(content).value) {
      MarkedDescends(tagName, content, indentLevel, stack);
    } else {
      MarkedKeeps(tagName, content, indentLevel, stack);
    }
  }

  /** `el.children.length > 0`: the node list holds an element. */
  predicate HasElementChild(kids: seq<Node>) {
    exists i :: 0 <= i < |kids| && kids[i].Element?
  }

  /**
   * What one child node contributes: its items (none or one) and the stack
   * after it.
   */
  function Step(node: Node, indentLevel: int, stack: seq<int>): (r: (seq<ParsedItem>, seq<int>))
    requires ValidStack(stack, indentLevel)
    ensures ValidStack(r.1, indentLevel)
    decreases node, 1
  {
    match node
    case Element(tag, outer, kids) =>
      var (level, stack') := Marked(Lower(tag), outer, indentLevel, stack);
      assert ValidStack(stack', indentLevel) by {
        MarkedKeepsValid(Lower(tag), outer, indentLevel, stack);
      }
      var children := if HasElementChild(kids) then ParseFrom(kids, level, [level]) else [];
      ([ParsedItem(outer, children, level)], stack')
    case Text(value) =>
      var text := Trim(value);
      (if text != [] then [ParsedItem(text, [], indentLevel)] else [], stack)
    case Other =>
      ([], stack)
  }

  /** The items of the node list `kids`, walked from the given stack. */
  function ParseFrom(kids: seq<Node>, indentLevel: int, stack: seq<int>): seq<ParsedItem>
    requires ValidStack(stack, indentLevel)
    decreases kids, 0
  {
    if kids == [] then []
    else
      var (items, stack') := Step(kids[0], indentLevel, stack);
      items + ParseFrom(kids[1..], indentLevel, stack')
  }

  /** `parseElement(element, indentLevel)`, with `kids` the element's child nodes. */
  function Parse(kids: seq<Node>, indentLevel: int): seq<ParsedItem> {
    ParseFrom(kids, indentLevel, [indentLevel])
  }

  /**
   * The walk: each child node in turn goes through `VisitChild`, which
   * appends its items and may push onto the stack local to this call.
   */
  method ParseElement(kids: seq<Node>, indentLevel: int) returns (items: seq<ParsedItem>)
    ensures items == Parse(kids, indentLevel)
    decreases kids, 0
  {
    items := [];
    var stack := [indentLevel];
    var i := 0;
    while i < |kids|
      invariant 0 <= i <= |kids|
      invariant ValidStack(stack, indentLevel)
      invariant items + ParseFrom(kids[i..], indentLevel, stack) == Parse(kids, indentLevel)
    {
      ghost var rest := kids[i..];
      assert rest[0] == kids[i] && rest[1..] == kids[i + 1..];
      var added;
      added, stack := VisitChild(kids[i], indentLevel, stack);
      items := items + added;
      i := i + 1;
    }
  }

  /**
   * The body of the loop over the child nodes: an element gets its level
   * from the marker test and, when it has element children, its children
   * from a recursive call with a fresh stack; a non-blank text node gets the
   * incoming level; any other node adds nothing.
   */
  method VisitChild(node: Node, indentLevel: int, stack: seq<int>) returns (added: seq<ParsedItem>, stack': seq<int>)
    requires ValidStack(stack, indentLevel)
    ensures (added, stack') == Step(node, indentLevel, stack)
    decreases node, 1
  {
    stack' := stack;
    added := [];
    match node {
      case Element(tag, outer, elementKids) =>
        var tagName := Lower(tag);
        var content := outer;
        var newIndentLevel := indentLevel;
        if tagName == "p" || tagName == "div" {
          var bulletMatch := BracketCapture(content);
          if bulletMatch.Some? {
            var bullet := bulletMatch.value;
            if AllDigits(bullet) {
              newIndentLevel := stack'[|stack'| - 1] + 1;
              stack' := stack' + [newIndentLevel];
            } else if IsSingleLower(bullet) {
              newIndentLevel := stack'[|stack'| - 1] + 1;
              stack' := stack' + [newIndentLevel];
            } else if IsSingleUpper(bullet) {
              newIndentLevel := stack'[|stack'| - 1] + 1;
              stack' := stack' + [newIndentLevel];
            } else if IsNumericReturn(bullet) {
              var popped := PopOr(stack', indentLevel);
              newIndentLevel, stack' := popped.0, popped.1;
            }
          }
        }
        assert (newIndentLevel, stack') == Marked(tagName, content, indentLevel, stack);
        var children := [];
        if HasElementChild(elementKids) {
          MarkedKeepsValid(tagName, content, indentLevel, stack);
          children := ParseElement(elementKids, newIndentLevel);
        }
        added := [ParsedItem(content, children, newIndentLevel)];
      case Text(value) =>
        var text := Trim(value);
        if text != [] {
          added := [ParsedItem(text, [], indentLevel)];
        }
      case Other =>
    }
  }

  /** The child nodes that produce an item: elements, and text that is not all whitespace. */
  predicate Emits(n: Node) {
    n.Element? || (n.Text? && !AllWhitespace(n.value))
  }

  /** The nodes of `kids` that produce an item, in document order. */
  function Emitted(kids: seq<Node>): seq<Node> {
    if kids == [] then [] else (if Emits(kids[0]) then [kids[0]] else []) + Emitted(kids[1..])
  }

  /**
   * `item` is what the walk makes of the node `n` at `indentLevel`: a text
   * node gives its trimmed text at the incoming level with no children; an
   * element gives its markup, a level no lower than the incoming one, and
   * the items of its own child nodes (walked with a fresh stack at the
   * element's level) when it has element children, none otherwise.
   */
  predicate ItemFor(item: ParsedItem, n: Node, indentLevel: int) {
    match n
    case Text(value) => item == ParsedItem(Trim(value), [], indentLevel)
    case Element(_, outer, kids) =>
      && item.content == outer
      && item.level >= indentLevel
      && item.children == (if HasElementChild(kids) then Parse(kids, item.level) else [])
    case Other => false
  }

  /** A child node gives one item when it `Emits`, and none otherwise. */
  lemma StepItem(node: Node, indentLevel: int, stack: seq<int>)
    requires ValidStack(stack, indentLevel)
    ensures var items := Step(node, indentLevel, stack).0;
      |items| == (if Emits(node) then 1 else 0) && (Emits(node) ==> ItemFor(items[0], node, indentLevel))
  {
    match node {
      case Element(tag, outer, _) => MarkedKeepsValid(Lower(tag), outer, indentLevel, stack);
      case Text(value) => TrimSpec(value);
      case Other =>
    }
  }

  lemma {:induction false} ParseFromLength(kids: seq<Node>, indentLevel: int, stack: seq<int>)
    requires ValidStack(stack, indentLevel)
    ensures |ParseFrom(kids, indentLevel, stack)| == |Emitted(kids)|
    decreases kids
  {
    if kids != [] {
      StepItem(kids[0], indentLevel, stack);
      ParseFromLength(kids[1..], indentLevel, Step(kids[0], indentLevel, stack).1);
    }
  }

  lemma {:induction false} ParseFromAt(kids: seq<Node>, indentLevel: int, stack: seq<int>, j: nat)
    requires ValidStack(stack, indentLevel)
    requires j < |Emitted(kids)|
    ensures |ParseFrom(kids, indentLevel, stack)| == |Emitted(kids)|
    ensures ItemFor(ParseFrom(kids, indentLevel, stack)[j], Emitted(kids)[j], indentLevel)
    decreases kids
  {
    ParseFromLength(kids, indentLevel, stack);
    var (items, stack') := Step(kids[0], indentLevel, stack);
    StepItem(kids[0], indentLevel, stack);
    var rest := ParseFrom(kids[1..], indentLevel, stack');
    var r := ParseFrom(kids, indentLevel, stack);
    var head := if Emits(kids[0]) then [kids[0]] else [];
    assert r == items + rest;
    assert Emitted(kids) == head + Emitted(kids[1..]);
    if j < |items| {
      assert r[j] == items[0] && Emitted(kids)[j] == kids[0];
    } else {
      ParseFromAt(kids[1..], indentLevel, stack', j - |items|);
      assert r[j] == rest[j - |items|];
      assert Emitted(kids)[j] == Emitted(kids[1..])[j - |items|];
    }
  }

  /**
   * One item per element and per non-blank text node, in document order,
   * and nothing for any other node, whatever the stack holds.
   */
  lemma ParseFromShape(kids: seq<Node>, indentLevel: int, stack: seq<int>)
    requires ValidStack(stack, indentLevel)
    ensures |ParseFrom(kids, indentLevel, stack)| == |Emitted(kids)|
    ensures forall j :: 0 <= j < |Emitted(kids)| ==> ItemFor(ParseFrom(kids, indentLevel, stack)[j], Emitted(kids)[j], indentLevel)
  {
    ParseFromLength(kids, indentLevel, stack);
    forall j | 0 <= j < |Emitted(kids)|
      ensures ItemFor(ParseFrom(kids, indentLevel, stack)[j], Emitted(kids)[j], indentLevel)
    {
      ParseFromAt(kids, indentLevel, stack, j);
    }
  }

  /**
   * A node list with no element and only blank text (an empty or
   * whitespace-only document) yields no items.
   */
  lemma {:induction false} BlankIsEmpty(kids: seq<Node>, indentLevel: int, stack: seq<int>)
    requires ValidStack(stack, indentLevel)
    requires forall k :: 0 <= k < |kids| ==> !Emits(kids[k])
    ensures ParseFrom(kids, indentLevel, stack) == []
    decreases kids
  {
    if kids != [] {
      StepItem(kids[0], indentLevel, stack);
      BlankIsEmpty(kids[1..], indentLevel, Step(kids[0], indentLevel, stack).1);
    }
  }

  /** Every item's level is at least `lo`, and every child's level at least its parent's. */
  predicate LevelsFrom(items: seq<ParsedItem>, lo: int)
    decreases items
  {
    forall j :: 0 <= j < |items| ==> items[j].level >= lo && LevelsFrom(items[j].children, items[j].level)
  }

  lemma LevelsFromConcat(a: seq<ParsedItem>, b: seq<ParsedItem>, lo: int)
    requires LevelsFrom(a, lo) && LevelsFrom(b, lo)
    ensures LevelsFrom(a + b, lo)
  {
    forall j | 0 <= j < |a + b|
      ensures (a + b)[j].level >= lo && LevelsFrom((a + b)[j].children, (a + b)[j].level)
    {
      if j >= |a| {
        assert (a + b)[j] == b[j - |a|];
      }
    }
  }

  /**
   * No item is below the incoming level, and no child is below its parent:
   * the levels only grow down the forest.
   */
  lemma {:induction false} ParseFromLevels(kids: seq<Node>, indentLevel: int, stack: seq<int>)
    requires ValidStack(stack, indentLevel)
    ensures LevelsFrom(ParseFrom(kids, indentLevel, stack), indentLevel)
    decreases kids
  {
    if kids != [] {
      var (items, stack') := Step(kids[0], indentLevel, stack);
      match kids[0] {
        case Element(tag, outer, elementKids) =>
          MarkedKeepsValid(Lower(tag), outer, indentLevel, stack);
          var level := Marked(Lower(tag), outer, indentLevel, stack).0;
          if HasElementChild(elementKids) {
            ParseFromLevels(elementKids, level, [level]);
          }
          assert LevelsFrom(items, indentLevel);
        case Text(_) =>
        case Other =>
      }
      ParseFromLevels(kids[1..], indentLevel, stack');
      LevelsFromConcat(items, ParseFrom(kids[1..], indentLevel, stack'), indentLevel);
    }
  }

  /** The number of nodes in `nodes` that open with a descend marker. */
  function Descents(nodes: seq<Node>): nat {
    if nodes == [] then 0 else (if IsDescendElement(nodes[0]) then 1 else 0) + Descents(nodes[1..])
  }

  /**
   * The levels of the items of `kids`, read off the nodes alone: `top` is
   * the top of the stack; a descend element climbs one above it and raises
   * it, any other emitting node stays at `indentLevel`, and the rest give
   * nothing.
   */
  function Levels(kids: seq<Node>, indentLevel: int, top: int): seq<int> {
    if kids == [] then []
    else if !Emits(kids[0]) then Levels(kids[1..], indentLevel, top)
    else if IsDescendElement(kids[0]) then [top + 1] + Levels(kids[1..], indentLevel, top + 1)
    else [indentLevel] + Levels(kids[1..], indentLevel, top)
  }

  /**
   * One node's effect on levels: the top of the stack climbs by one exactly
   * at a descend element, and an emitting node's item sits at the new top
   * when it is a descend element and at the incoming level otherwise.
   */
  lemma StepLevel(n: Node, indentLevel: int, stack: seq<int>)
    requires ValidStack(stack, indentLevel)
    ensures var (items, stack') := Step(n, indentLevel, stack);
      && |items| == (if Emits(n) then 1 else 0)
      && Top(stack') == Top(stack) + (if IsDescendElement(n) then 1 else 0)
      && (Emits(n) ==> items[0].level == if IsDescendElement(n) then Top(stack) + 1 else indentLevel)
  {
    StepItem(n, indentLevel, stack);
    if n.Element? {
      if IsDescendElement(n) {
        MarkedDescends(Lower(n.tag), n.outer, indentLevel, stack);
      } else {
        MarkedKeeps(Lower(n.tag), n.outer, indentLevel, stack);
      }
    }
  }

  /** The walk gives its items exactly the levels `Levels` reads off the nodes. */
  lemma {:induction false} ParseFromLevelsAre(kids: seq<Node>, indentLevel: int, stack: seq<int>)
    requires ValidStack(stack, indentLevel)
    ensures |ParseFrom(kids, indentLevel, stack)| == |Levels(kids, indentLevel, Top(stack))|
    ensures forall j :: 0 <= j < |ParseFrom(kids, indentLevel, stack)| ==>
      ParseFrom(kids, indentLevel, stack)[j].level == Levels(kids, indentLevel, Top(stack))[j]
    decreases kids
  {
    if kids != [] {
      var (items, stack') := Step(kids[0], indentLevel, stack);
      StepLevel(kids[0], indentLevel, stack);
      ParseFromLevelsAre(kids[1..], indentLevel, stack');
      var r := ParseFrom(kids, indentLevel, stack);
      var rest := ParseFrom(kids[1..], indentLevel, stack');
      assert r == items + rest;
      forall j | |items| <= j < |r|
        ensures r[j] == rest[j - |items|]
      {
      }
    }
  }

  /**
   * The closed form of `Levels`: the j-th emitting node sits at
   * `indentLevel`, unless it is a descend element, which sits above `top` by
   * the number of descend elements among the first j + 1 emitting nodes.
   */
  lemma {:induction false} LevelsAt(kids: seq<Node>, indentLevel: int, top: int, j: nat)
    requires j < |Emitted(kids)|
    ensures |Levels(kids, indentLevel, top)| == |Emitted(kids)|
    ensures Levels(kids, indentLevel, top)[j]
         == if IsDescendElement(Emitted(kids)[j]) then top + Descents(Emitted(kids)[..j + 1]) else indentLevel
    decreases kids
  {
    LevelsLength(kids, indentLevel, top);
    var n := kids[0];
    var tail := Emitted(kids[1..]);
    var d := if IsDescendElement(n) then 1 else 0;
    if !Emits(n) {
      assert Emitted(kids) == tail;
      LevelsAt(kids[1..], indentLevel, top, j);
    } else {
      assert Emitted(kids) == [n] + tail;
      assert Levels(kids, indentLevel, top)
          == [if IsDescendElement(n) then top + 1 else indentLevel] + Levels(kids[1..], indentLevel, top + d);
      if j == 0 {
        DescentsCons(n, []);
        assert ([n] + tail)[..1] == [n] + [];
      } else {
        LevelsAt(kids[1..], indentLevel, top + d, j - 1);
        ConsAt(n, tail, j);
        DescentsCons(n, tail[..j]);
      }
    }
  }

  lemma {:induction false} LevelsLength(kids: seq<Node>, indentLevel: int, top: int)
    ensures |Levels(kids, indentLevel, top)| == |Emitted(kids)|
    decreases kids
  {
    if kids != [] {
      var d := if IsDescendElement(kids[0]) then 1 else 0;
      LevelsLength(kids[1..], indentLevel, top + d);
      LevelsLength(kids[1..], indentLevel, top);
    }
  }

  /**
   * The exact level of every item: a text item, or an element without a
   * descend marker, sits at the incoming level; an element with a descend
   * marker sits above the top of the starting stack by the number of
   * descend elements among the emitting nodes up to and including it, since
   * the stack carries the climb across every node in between.
   */
  lemma LevelAt(kids: seq<Node>, indentLevel: int, stack: seq<int>, j: nat)
    requires ValidStack(stack, indentLevel)
    requires j < |Emitted(kids)|
    ensures |ParseFrom(kids, indentLevel, stack)| == |Emitted(kids)|
    ensures ParseFrom(kids, indentLevel, stack)[j].level
         == if IsDescendElement(Emitted(kids)[j]) then Top(stack) + Descents(Emitted(kids)[..j + 1])
            else indentLevel
  {
    ParseFromLevelsAre(kids, indentLevel, stack);
    LevelsAt(kids, indentLevel, Top(stack), j);
  }

  /** Indexing and prefixes of a sequence with one element in front. */
  lemma ConsAt<T>(x: T, s: seq<T>, j: nat)
    requires 0 < j <= |s|
    ensures ([x] + s)[j] == s[j - 1]
    ensures ([x] + s)[..j + 1] == [x] + s[..j]
  {
  }

  lemma DescentsCons(n: Node, nodes: seq<Node>)
    ensures Descents([n] + nodes) == (if IsDescendElement(n) then 1 else 0) + Descents(nodes)
  {
    assert ([n] + nodes)[1..] == nodes;
  }

  /** The j-th emitting node is one of `kids`, and it emits. */
  lemma {:induction false} EmittedAt(kids: seq<Node>, j: nat)
    requires j < |Emitted(kids)|
    ensures Emitted(kids)[j] in kids && Emits(Emitted(kids)[j])
    decreases kids
  {
    var head := if Emits(kids[0]) then [kids[0]] else [];
    assert Emitted(kids) == head + Emitted(kids[1..]);
    if j >= |head| {
      EmittedAt(kids[1..], j - |head|);
      assert Emitted(kids)[j] == Emitted(kids[1..])[j - |head|];
    }
  }

  lemma {:induction false} DescentsAll(nodes: seq<Node>)
    requires forall i :: 0 <= i < |nodes| ==> IsDescendElement(nodes[i])
    ensures Descents(nodes) == |nodes|
  {
    if nodes != [] {
      DescentsAll(nodes[1..]);
    }
  }

  /**
   * When every element among the sibling nodes opens with a descend marker
   * and the nodes in between are blank text or other nodes, the j-th item
   * sits at the top of the stack plus 1 + j: each marker climbs one level.
   */
  lemma DescendRun(kids: seq<Node>, indentLevel: int, stack: seq<int>)
    requires ValidStack(stack, indentLevel)
    requires forall k :: 0 <= k < |kids| ==> Emits(kids[k]) ==> IsDescendElement(kids[k])
    ensures |ParseFrom(kids, indentLevel, stack)| == |Emitted(kids)|
    ensures forall j :: 0 <= j < |Emitted(kids)| ==> ParseFrom(kids, indentLevel, stack)[j].level == Top(stack) + 1 + j
  {
    ParseFromLength(kids, indentLevel, stack);
    var e := Emitted(kids);
    forall j | 0 <= j < |e|
      ensures ParseFrom(kids, indentLevel, stack)[j].level == Top(stack) + 1 + j
    {
      forall i | 0 <= i <= j
        ensures IsDescendElement(e[i])
      {
        EmittedAt(kids, i);
      }
      assert forall i :: 0 <= i < |e[..j + 1]| ==> e[..j + 1][i] == e[i];
      DescentsAll(e[..j + 1]);
      LevelAt(kids, indentLevel, stack, j);
    }
  }

  /** k such siblings in a fresh call get the levels indentLevel + 1, ..., indentLevel + k. */
  lemma DescendSiblings(kids: seq<Node>, indentLevel: int)
    requires forall k :: 0 <= k < |kids| ==> Emits(kids[k]) ==> IsDescendElement(kids[k])
    ensures |Parse(kids, indentLevel)| == |Emitted(kids)|
    ensures forall j :: 0 <= j < |Emitted(kids)| ==> Parse(kids, indentLevel)[j].level == indentLevel + 1 + j
  {
    DescendRun(kids, indentLevel, [indentLevel]);
  }

  /**
   * Every element of the tree has markup that starts with `<`, as the
   * `outerHTML` a browser produces always does.
   */
  predicate Serialized(kids: seq<Node>)
    decreases kids
  {
    forall k :: 0 <= k < |kids| ==> kids[k].Element? ==>
      |kids[k].outer| > 0 && kids[k].outer[0] == '<' && Serialized(kids[k].kids)
  }

  /** Every item of the forest, at every depth, is at `level`. */
  predicate AllAtLevel(items: seq<ParsedItem>, level: int)
    decreases items
  {
    forall j :: 0 <= j < |items| ==> items[j].level == level && AllAtLevel(items[j].children, level)
  }

  lemma AllAtLevelConcat(a: seq<ParsedItem>, b: seq<ParsedItem>, level: int)
    requires AllAtLevel(a, level) && AllAtLevel(b, level)
    ensures AllAtLevel(a + b, level)
  {
    forall j | 0 <= j < |a + b|
      ensures (a + b)[j].level == level && AllAtLevel((a + b)[j].children, level)
    {
      if j >= |a| {
        assert (a + b)[j] == b[j - |a|];
      }
    }
  }

  /**
   * Because the marker test reads the element's markup, which starts with
   * `<` rather than `(`, no marker ever fires on a browser-built tree: every
   * item, at every depth, stays at the incoming level.
   */
  lemma {:induction false} SerializedIsFlat(kids: seq<Node>, indentLevel: int, stack: seq<int>)
    requires ValidStack(stack, indentLevel)
    requires Serialized(kids)
    ensures AllAtLevel(ParseFrom(kids, indentLevel, stack), indentLevel)
    decreases kids
  {
    if kids != [] {
      var (items, stack') := Step(kids[0], indentLevel, stack);
      match kids[0] {
        case Element(tag, outer, elementKids) =>
          assert BracketCapture(outer) == None;
          MarkedKeeps(Lower(tag), outer, indentLevel, stack);
          if HasElementChild(elementKids) {
            SerializedIsFlat(elementKids, indentLevel, [indentLevel]);
          }
          assert AllAtLevel(items, indentLevel);
        case Text(_) =>
        case Other =>
      }
      assert Serialized(kids[1..]) by {
        forall k | 0 <= k < |kids[1..]| && kids[1..][k].Element?
          ensures |kids[1..][k].outer| > 0 && kids[1..][k].outer[0] == '<' && Serialized(kids[1..][k].kids)
        {
          assert kids[1..][k] == kids[k + 1];
        }
      }
      SerializedIsFlat(kids[1..], indentLevel, stack');
      AllAtLevelConcat(items, ParseFrom(kids[1..], indentLevel, stack'), indentLevel);
    }
  }
}
