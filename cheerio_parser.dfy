/**
 * The cheerio-based parser's `parseHtml` and its nested `processNode`
 * (src/HTMLParser.ts): only `p`, `div` and `span` elements become items, an
 * item's children are its own eligible element children, its level is its
 * depth, and its content is its own text with the text of its element
 * children left out.
 *
 * `Tree` and `Forest` specify the result; `ProcessNode` and `ParseHtml` are
 * the loops that build it, proved equal to them.
 */
module CheerioParser {
  import opened Dom

  /** `['p', 'div', 'span'].includes(tagName.toLowerCase())` */
  predicate IsEligibleTag(tag: string) {
    Lower(tag) in ["p", "div", "span"]
  }

  /** A node that `children()` yields (an element) and whose tag passes the test. */
  predicate Eligible(n: Node) {
    n.Element? && IsEligibleTag(n.tag)
  }

  /**
   * The text of the node list with every element child removed: its text
   * nodes' values, concatenated in order.
   */
  function OwnText(kids: seq<Node>): string {
    if kids == [] then ""
    else (if kids[0].Text? then kids[0].value else "") + OwnText(kids[1..])
  }

  /** The item `processNode(element, level)` returns. */
  function Tree(element: Node, level: int): ParsedItem
    requires element.Element?
    decreases element, 1
  {
    ParsedItem(Trim(OwnText(element.kids)), Forest(element.kids, level + 1), level)
  }

  /** The items of the eligible elements among `kids`, each at `level`. */
  function Forest(kids: seq<Node>, level: int): seq<ParsedItem>
    decreases kids, 0
  {
    if kids == [] then []
    else (if Eligible(kids[0]) then [Tree(kids[0], level)] else []) + Forest(kids[1..], level)
  }

  /**
   * One step of the walk over `kids`: the items of the first `i + 1` nodes
   * are those of the first `i`, then the item of `kids[i]` if it is
   * eligible.
   */
  lemma ForestSnoc(kids: seq<Node>, i: nat, level: int)
    requires i < |kids|
    ensures Forest(kids[..i + 1], level)
         == Forest(kids[..i], level) + (if Eligible(kids[i]) then [Tree(kids[i], level)] else [])
  {
    assert kids[..i + 1] == kids[..i] + [kids[i]];
    ForestConcat(kids[..i], [kids[i]], level);
    assert [kids[i]][1..] == [];
  }

  /**
   * `processNode`: the item starts with the element's own trimmed text and
   * no children; then each eligible element child, in order, is processed
   * one level deeper and appended.
   */
  method ProcessNode(element: Node, level: int) returns (item: ParsedItem)
    requires element.Element?
    ensures item == Tree(element, level)
    decreases element, 1
  {
    item := ParsedItem(Trim(OwnText(element.kids)), [], level);
    var kids := element.kids;
    var i := 0;
    while i < |kids|
      invariant 0 <= i <= |kids|
      invariant item.content == Trim(OwnText(kids)) && item.level == level
      invariant item.children == Forest(kids[..i], level + 1)
    {
      ForestSnoc(kids, i, level + 1);
      var child := kids[i];
      if Eligible(child) {
        var childItem := ProcessNode(child, level + 1);
        item := item.(children := item.children + [childItem]);
      }
      i := i + 1;
    }
    assert kids[..i] == kids;
  }

  /**
   * `parseHtml`, from the child nodes of the document body on: each
   * eligible element, in order, becomes a top-level item at level 0.
   */
  method ParseHtml(body: seq<Node>) returns (items: seq<ParsedItem>)
    ensures items == Forest(body, 0)
  {
    items := [];
    var i := 0;
    while i < |body|
      invariant 0 <= i <= |body|
      invariant items == Forest(body[..i], 0)
    {
      ForestSnoc(body, i, 0);
      var element := body[i];
      if Eligible(element) {
        var item := ProcessNode(element, 0);
        items := items + [item];
      }
      i := i + 1;
    }
    assert body[..i] == body;
  }

  /** The eligible elements among `kids`, in order. */
  function EligibleKids(kids: seq<Node>): seq<Node> {
    if kids == [] then []
    else (if Eligible(kids[0]) then [kids[0]] else []) + EligibleKids(kids[1..])
  }

  /**
   * The forest has one item per eligible element among `kids`, in order:
   * the `k`-th item is that of the `k`-th eligible element, at `level`, with
   * the element's own trimmed text and its own eligible children one level
   * deeper.
   */
  lemma {:induction false} ForestAt(kids: seq<Node>, level: int, k: nat)
    requires k < |EligibleKids(kids)|
    ensures |Forest(kids, level)| == |EligibleKids(kids)|
    ensures var e := EligibleKids(kids)[k];
      && e in kids && Eligible(e)
      && Forest(kids, level)[k] == Tree(e, level)
      && Forest(kids, level)[k].level == level
      && Forest(kids, level)[k].content == Trim(OwnText(e.kids))
      && Forest(kids, level)[k].children == Forest(e.kids, level + 1)
  {
    var tail := kids[1..];
    if Eligible(kids[0]) {
      if k > 0 {
        ForestAt(tail, level, k - 1);
        assert EligibleKids(kids)[k] == EligibleKids(tail)[k - 1];
        assert Forest(kids, level)[k] == Forest(tail, level)[k - 1];
        assert EligibleKids(tail)[k - 1] in tail;
      } else {
        ForestLength(tail, level);
      }
    } else {
      ForestAt(tail, level, k);
      assert EligibleKids(kids) == EligibleKids(tail);
    }
  }

  lemma {:induction false} ForestLength(kids: seq<Node>, level: int)
    ensures |Forest(kids, level)| == |EligibleKids(kids)|
  {
    if kids != [] {
      ForestLength(kids[1..], level);
    }
  }

  /** The items of a concatenation are the items of each part, in order. */
  lemma {:induction false} ForestConcat(a: seq<Node>, b: seq<Node>, level: int)
    ensures Forest(a + b, level) == Forest(a, level) + Forest(b, level)
  {
    if a == [] {
      assert a + b == b;
    } else {
      var head := if Eligible(a[0]) then [Tree(a[0], level)] else [];
      assert (a + b)[0] == a[0] && (a + b)[1..] == a[1..] + b;
      assert Forest(a + b, level) == head + Forest(a[1..] + b, level);
      ForestConcat(a[1..], b, level);
      assert head + (Forest(a[1..], level) + Forest(b, level))
          == (head + Forest(a[1..], level)) + Forest(b, level);
    }
  }

  /**
   * A node that is not an eligible element (a text node, a comment, an
   * element of another tag) contributes nothing, its whole subtree
   * included: removing it leaves the forest as it was.
   */
  lemma ForestSkipsIneligible(pre: seq<Node>, n: Node, post: seq<Node>, level: int)
    requires !Eligible(n)
    ensures Forest(pre + [n] + post, level) == Forest(pre + post, level)
  {
    ForestConcat(pre + [n], post, level);
    ForestConcat(pre, [n], level);
    ForestConcat(pre, post, level);
    assert Forest([n], level) == [];
  }

  /** Every item of the forest, at every depth, has its depth as its level. */
  predicate AtDepth(items: seq<ParsedItem>, depth: int)
    decreases items
  {
    forall k :: 0 <= k < |items| ==> items[k].level == depth && AtDepth(items[k].children, depth + 1)
  }

  /** `level` is the depth: the forest of `kids` at `depth` is at that depth all the way down. */
  lemma {:induction false} ForestDepth(kids: seq<Node>, depth: int)
    ensures AtDepth(Forest(kids, depth), depth)
    decreases kids
  {
    var items := Forest(kids, depth);
    forall k | 0 <= k < |items|
      ensures items[k].level == depth && AtDepth(items[k].children, depth + 1)
    {
      ForestLength(kids, depth);
      ForestAt(kids, depth, k);
      ForestDepth(EligibleKids(kids)[k].kids, depth + 1);
    }
  }

  /** The number of items in a forest, at every depth. */
  function Count(items: seq<ParsedItem>): nat
    decreases items
  {
    if items == [] then 0 else 1 + Count(items[0].children) + Count(items[1..])
  }

  /** The number of `p`, `div` and `span` elements anywhere under `kids`. */
  function EligibleCount(kids: seq<Node>): nat
    decreases kids
  {
    if kids == [] then 0
    else
      var here := match kids[0]
        case Element(_, _, sub) => (if Eligible(kids[0]) then 1 else 0) + EligibleCount(sub)
        case _ => 0;
      here + EligibleCount(kids[1..])
  }

  lemma {:induction false} CountConcat(a: seq<ParsedItem>, b: seq<ParsedItem>)
    ensures Count(a + b) == Count(a) + Count(b)
  {
    if a == [] {
      assert a + b == b;
    } else {
      assert (a + b)[0] == a[0] && (a + b)[1..] == a[1..] + b;
      CountConcat(a[1..], b);
    }
  }

  /** There are never more items than eligible elements in the document. */
  lemma {:induction false} ForestCount(kids: seq<Node>, level: int)
    ensures Count(Forest(kids, level)) <= EligibleCount(kids)
    decreases kids
  {
    if kids != [] {
      var head := if Eligible(kids[0]) then [Tree(kids[0], level)] else [];
      CountConcat(head, Forest(kids[1..], level));
      ForestCount(kids[1..], level);
      if Eligible(kids[0]) {
        ForestCount(kids[0].kids, level + 1);
        assert head[1..] == [];
      }
    }
  }

  lemma {:induction false} OwnTextConcat(a: seq<Node>, b: seq<Node>)
    ensures OwnText(a + b) == OwnText(a) + OwnText(b)
  {
    if a == [] {
      assert a + b == b;
    } else {
      var head := if a[0].Text? then a[0].value else "";
      assert (a + b)[0] == a[0] && (a + b)[1..] == a[1..] + b;
      assert OwnText(a + b) == head + OwnText(a[1..] + b);
      OwnTextConcat(a[1..], b);
      assert head + (OwnText(a[1..]) + OwnText(b)) == (head + OwnText(a[1..])) + OwnText(b);
    }
  }

  /**
   * An item's content leaves out the text of its element children: removing
   * an element child, whatever it holds, leaves the own text unchanged,
   * while a text child's value is part of it, in place.
   */
  lemma OwnTextOfChild(pre: seq<Node>, n: Node, post: seq<Node>)
    ensures OwnText(pre + [n] + post)
         == OwnText(pre) + (if n.Text? then n.value else "") + OwnText(post)
  {
    OwnTextConcat(pre + [n], post);
    OwnTextConcat(pre, [n]);
    assert [n][1..] == [];
  }

  /** An item's content is its own text without the surrounding whitespace. */
  lemma TreeContent(element: Node, level: int)
    requires element.Element?
    ensures var c := Tree(element, level).content;
      && (c == [] || (!IsWhitespace(c[0]) && !IsWhitespace(c[|c| - 1])))
      && (c == [] <==> AllWhitespace(OwnText(element.kids)))
  {
    TrimSpec(OwnText(element.kids));
  }
}
