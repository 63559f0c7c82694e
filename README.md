# HTML outline parser — a Dafny model

The repository turns pasted HTML into an indented outline, a forest of
items that each have a content string, a level and child items. It does this
with two parsers:

- **The browser parser** is `parseElement` in `src/HTMLParser.tsx`. It walks an
  element's child nodes in order with a local indent stack. Each element
  becomes an item that holds its serialised markup. Each non-blank text node
  becomes an item that holds its trimmed text. A `p` or `div` whose markup
  begins with a bracketed word such as `(1)`, `(a)` or `(A)` is placed one
  level above the top of the stack, and that level is pushed. A `(12.)`-style
  word was meant to pop the stack. An element with element children gets
  those children from a recursive call that starts a fresh stack at the
  element's level.
- **The cheerio parser** is `parseHtml` with its nested `processNode` in
  `src/HTMLParser.ts`. Only `p`, `div` and `span` elements become items. An
  item's level is its depth, and its children are its own eligible element
  children. Its content is its own text, trimmed, with the text of its
  element children left out.

The model has four modules:

- `Dom` (`dom.dfy`) holds the parsed document tree, which is an input: text
  nodes, elements with their tag, markup and child nodes, and every other
  node kind. It also holds the output item and the two string operations
  both parsers use, `trim` and `toLowerCase`.
- `Markers` (`markers.dfy`) holds the five regular expressions of the marker
  test, written as predicates on characters.
- `OutlineParser` (`outline_parser.dfy`) models `parseElement`. The
  specification functions `Step`, `ParseFrom` and `Parse` describe the walk.
  The methods `ParseElement` (the `forEach` loop, with its `items` and
  `stack` locals) and `VisitChild` (the loop body) are proved equal to them.
- `CheerioParser` (`cheerio_parser.dfy`) models `parseHtml`. The
  specification functions `Tree` and `Forest` describe the result. The
  methods `ProcessNode` and `ParseHtml` are the two `each` loops, proved
  equal to them.

Proving the natural contracts brought out two facts about the browser parser
as written:

- **The return branch is dead.** The captured word is made of `\w`
  characters, so it never contains the `.` that `^\d+\.$` needs
  (`Markers.CaptureNeverReturns`). The stack is therefore never popped, and
  it stays `[indentLevel, indentLevel + 1, …]`
  (`OutlineParser.MarkedKeepsValid`).
- **No marker fires on markup a browser produces.** The marker test reads
  `outerHTML`, and markup from a browser begins with `<`. On such a tree
  every item stays at the incoming level (`OutlineParser.SerializedIsFlat`).

Three further facts about the code, as written:

- The marker test reads the element's `outerHTML` as it is, not its text,
  and no leading whitespace is skipped.
- The only "return" marker is the bracketed `^\d+\.$` test, and it is
  unreachable. If it ran, `stack.pop() || indentLevel` could empty the
  stack.
- The cheerio parser drops an element whose tag is not `p`, `div` or `span`
  together with its whole subtree, eligible descendants included
  (`CheerioParser.ForestSkipsIneligible`). The browser parser has no
  eligibility test at all.

## Model

| member | source | states |
|---|---|---|
| Dom.TrimStartSpec | src/HTMLParser.tsx:89 | leading trim removes exactly a whitespace prefix and keeps the rest, which is empty or starts with a non-whitespace character |
| Dom.TrimEndSpec | src/HTMLParser.tsx:89 | trailing trim removes exactly a whitespace suffix and keeps the rest, which is empty or ends with a non-whitespace character |
| Dom.TrimSpec | src/HTMLParser.tsx:89-90 | `trim()` is the slice of `s` between a leading and a trailing whitespace run; neither end of it is whitespace; it is empty exactly when `s` is all whitespace |
| Markers.WordRun | src/HTMLParser.tsx:65 | the greedy `\w+` run: every character in it is a word character, and the character right after it is not |
| Markers.BracketCaptureMatches | src/HTMLParser.tsx:65-67 | `match(/^\((\w+)\)/)` captures `w` exactly when the content begins with `(`, then the non-empty word `w`, then `)` |
| Markers.ClassifiedWords | src/HTMLParser.tsx:68-79 | a word is classified exactly when it is all digits, one lower-case letter or one upper-case letter, never as a return marker, and so always as a descend marker |
| Markers.CaptureNeverReturns | src/HTMLParser.tsx:65-78 | no captured bracketed word passes `^\d+\.$`, so the pop branch is never taken |
| OutlineParser.MarkedDescends | src/HTMLParser.tsx:64-76 | a `p`/`div` whose content begins with a digits or one-letter bracketed word gets level top+1, and top+1 is pushed |
| OutlineParser.MarkedKeeps | src/HTMLParser.tsx:62-81 | any other element (another tag, no leading bracketed word, or another kind of word) keeps the incoming level and leaves the stack unchanged |
| OutlineParser.MarkedKeepsValid | src/HTMLParser.tsx:55-81 | the stack stays `[indentLevel, indentLevel+1, …]`, only ever grows by one, and the element's level is the incoming level or the new top, never below the incoming level |
| OutlineParser.Step | src/HTMLParser.tsx:57-93 | handling one child node keeps the stack a consecutive run from `indentLevel` |
| OutlineParser.ParseElement | src/HTMLParser.tsx:53-96 | the loop over the child nodes, with its local `items` and `stack`, returns exactly `Parse(kids, indentLevel)` |
| OutlineParser.VisitChild | src/HTMLParser.tsx:57-93 | the `forEach` callback (marker test, recursive call only when there are element children, item push) yields exactly the items and stack of `Step` |
| OutlineParser.StepItem | src/HTMLParser.tsx:58-93 | a child node yields one item when it is an element or non-blank text, and none otherwise; a text item is the trimmed text at the incoming level with no children; an element item holds the markup, a level at least the incoming one, and children from a fresh-stack call only when it has element children |
| OutlineParser.ParseFromLength | src/HTMLParser.tsx:57-94 | there are as many items as element and non-blank text children |
| OutlineParser.ParseFromAt | src/HTMLParser.tsx:57-94 | the j-th item is the item of the j-th element or non-blank text child |
| OutlineParser.ParseFromShape | src/HTMLParser.tsx:53-96 | items come in document order, exactly one per element child and one per non-blank text child |
| OutlineParser.BlankIsEmpty | src/HTMLParser.tsx:57-95 | a node list with no element and only blank text gives no items |
| OutlineParser.ParseFromLevels | src/HTMLParser.tsx:53-96 | every item's level is at least `indentLevel`, and every child's level is at least its parent's |
| OutlineParser.StepLevel | src/HTMLParser.tsx:62-92 | one child node raises the top of the stack by one exactly when it is a descend element; its item, if any, sits at the new top for a descend element and at the incoming level otherwise |
| OutlineParser.ParseFromLevelsAre | src/HTMLParser.tsx:55-94 | the walk gives its items exactly the levels `Levels` reads off the nodes, with the stack carried across every sibling |
| OutlineParser.LevelsLength | src/HTMLParser.tsx:57-94 | `Levels` has one entry per element and non-blank text child |
| OutlineParser.LevelsAt | src/HTMLParser.tsx:55-94 | the j-th level is the incoming level, unless the j-th emitting node is a descend element, which sits above the starting top by the number of descend elements among the first j + 1 emitting nodes |
| OutlineParser.LevelAt | src/HTMLParser.tsx:53-96 | the exact level of every item in any child list: text items and elements without a descend marker keep the incoming level; a descend element sits above the starting stack's top by the count of descend elements up to and including it, whatever text or other elements lie between |
| OutlineParser.EmittedAt | src/HTMLParser.tsx:57-93 | every node that gives an item is one of the child nodes, and it is an element or non-blank text |
| OutlineParser.DescendRun | src/HTMLParser.tsx:64-87 | when every element among the siblings opens with a descend marker, whatever blank text or other nodes lie between them, the j-th item sits at the stack's top + 1 + j |
| OutlineParser.DescendSiblings | src/HTMLParser.tsx:53-96 | k such sibling descend-marker elements in one call, with blank text or other nodes between them, get levels indentLevel+1, …, indentLevel+k |
| OutlineParser.SerializedIsFlat | src/HTMLParser.tsx:61-81 | when every element's markup begins with `<`, every item at every depth stays at the incoming level |
| CheerioParser.ProcessNode | src/HTMLParser.ts:26-44 | the item built from the own trimmed text, with each eligible child processed one level deeper and appended in order, is exactly `Tree(element, level)` |
| CheerioParser.ParseHtml | src/HTMLParser.ts:19-55 | the loop over the body's children returns exactly `Forest(body, 0)` |
| CheerioParser.ForestSnoc | src/HTMLParser.ts:37-41 | one iteration of the `each` loop extends the items of the children visited so far by the current child's item, if it is eligible |
| CheerioParser.ForestLength | src/HTMLParser.ts:37-52 | there are as many items as eligible element children |
| CheerioParser.ForestAt | src/HTMLParser.ts:26-52 | the k-th item comes from the k-th eligible child: it has the given level, that child's own trimmed text, and that child's own eligible children one level deeper |
| CheerioParser.ForestConcat | src/HTMLParser.ts:37-41 | the items of two consecutive runs of children are the items of each run, in order |
| CheerioParser.ForestSkipsIneligible | src/HTMLParser.ts:37-52 | removing a text node, a comment or an element of another tag, with its whole subtree, leaves the items unchanged |
| CheerioParser.ForestDepth | src/HTMLParser.ts:26-52 | every item at every depth has its depth as its level |
| CheerioParser.CountConcat | src/HTMLParser.ts:37-41 | the number of items at all depths adds up over consecutive runs |
| CheerioParser.ForestCount | src/HTMLParser.ts:19-55 | the number of items at all depths is at most the number of `p`, `div` and `span` elements in the document |
| CheerioParser.OwnTextConcat | src/HTMLParser.ts:32 | an element's own text over consecutive runs of children is the concatenation of the runs' own texts |
| CheerioParser.OwnTextOfChild | src/HTMLParser.ts:32 | an element child adds nothing to the own text, whatever it contains; a text child adds its value in place |
| CheerioParser.TreeContent | src/HTMLParser.ts:32 | an item's content has no whitespace at either end, and it is empty exactly when the own text is all whitespace |

## Left out

- The user interface is not modelled: the React components, state hooks, the rendering of the outline, URL fetching with axios, DOMPurify sanitising and the clipboard. They are I/O around the parsers.
- The HTML engines (the browser's `DOMParser`, cheerio's loader) are not modelled. The parsed tree is an input. An element's `outerHTML` is an opaque string in it.
- Node kinds other than elements and text (comments, CDATA, processing instructions, doctype) are one `Other` kind. Neither parser makes an item from one, and cheerio's `text()` is taken to skip them.
- `toLowerCase` is modelled on ASCII letters only. Tag names are ASCII.
- Only the five regular expressions the marker test uses are modelled, each as a predicate. General regular-expression matching is not.
- JavaScript numbers are modelled as unbounded integers. The `undefined + 1` that an empty stack would give cannot arise, because the stack is never empty (`OutlineParser.MarkedKeepsValid`).
- `node.nodeValue?.trim()` is modelled for text nodes only. Their value is never null.
- The two parsers' item types differ only in the field name (`indentLevel` and `level`). Both are one `ParsedItem` datatype with a `level` field.
- `items`, `stack` and `item.children` are local values that no other code can reach. They are modelled as sequence variables that the loops reassign, so nothing about aliasing is lost.
- `CheerioParser.ForestCount` is an upper bound, as promised. The exact count (eligible elements all of whose ancestors are eligible) is not stated.
