/** From parsed wiki elements to DocBook (doc/scripts/wikiparser.py), as a stream of tags.  Text and
    attributes are opaque. */
module Docbook {
  import opened Wrappers

  datatype Tag = Open(name: string) | Close(name: string) | Empty(name: string) | Chars(text: string)
               | Comment(text: string)

  datatype Element =
    | Heading(level: int, text: string)
    | Silent                                  // table of contents, include markers, category
    | Note                                    // rules and smaller text become XML comments
    | PlainText(text: string)
    | Url(text: string)
    | ItalicText(content: seq<Element>)
    | BoldText(content: seq<Element>)
    | MonospaceText(text: string)
    | UnderlineText(text: string)
    | CodeText(text: string)
    | Paragraph(content: seq<Element>)
    | Link(isLocal: bool, content: seq<Element>)
    | EmbeddedAttachment(content: seq<Element>)
    | ListItem(content: seq<Element>)
    | ListOf(numbered: bool, items: seq<Element>)
    | TableItem(content: seq<Element>)
    | TableRow(items: seq<Element>)
    | Table(columns: nat, rows: seq<Element>)
    | Admonition(style: string, content: seq<Element>)
    | Remark(content: seq<Element>)
    | Anchor(name: string)

  /** Whether the shared context, if there is one, says that rendering is inside a paragraph. */
  type Context = Option<bool>

  function Wrap(name: string, inner: seq<Tag>): seq<Tag> {
    [Open(name)] + inner + [Close(name)]
  }

  /** The tags of an element, and the context it leaves behind. */
  function Render(e: Element, context: Context): (seq<Tag>, Context)
    decreases e, 1
  {
    match e
    case Heading(_, text) => (Wrap("title", [Chars(text)]), context)
    case Silent => ([], context)
    case Note => ([Comment("not applicable to DocBook")], context)
    case PlainText(text) => ([Chars(text)], context)
    case Url(text) => ([Empty("ulink")], context)
    case ItalicText(content) => (Wrap("emphasis", RenderAll(content, None, []).0), context)
    case BoldText(content) => (Wrap("emphasis", RenderAll(content, None, []).0), context)
    case MonospaceText(text) => (Wrap("code", [Chars(text)]), context)
    case UnderlineText(text) => (Wrap("emphasis", [Chars(text)]), context)
    case CodeText(text) => (Wrap(if context == Some(true) then "code" else "screen", [Chars(text)]), context)
    case Paragraph(content) =>
      (Wrap("para", RenderAll(content, if context.Some? then Some(true) else None, []).0),
       if context.Some? then Some(false) else None)
    case Link(isLocal, content) =>
      var (inner, after) := RenderAll(content, context, []);
      (Wrap(if isLocal then "link" else "ulink", inner), after)
    case EmbeddedAttachment(content) =>
      var (inner, after) := RenderAll(content, context, []);
      var phrase := if content == [] then [] else Wrap("textobject", Wrap("phrase", inner));
      (Wrap("inlinemediaobject", Wrap("imageobject", [Empty("imagedata")]) + phrase), after)
    case ListItem(content) =>
      var (inner, after) := RenderAll(content, context, [Chars(" ")]);
      (Wrap("listitem", inner), after)
    case ListOf(numbered, items) =>
      var (inner, after) := RenderAll(items, context, []);
      (Wrap(if numbered then "orderedlist" else "itemizedlist", inner), after)
    case TableItem(content) =>
      if content == [] then ([Empty("entry")], context)
      else
        var (inner, after) := RenderAll(content, context, []);
        (Wrap("entry", inner), after)
    case TableRow(items) =>
      var (inner, after) := RenderAll(items, context, []);
      (Wrap("row", inner), after)
    case Table(columns, rows) =>
      var (inner, after) := RenderAll(rows, context, []);
      var colspecs := seq(columns, _ => Empty("colspec"));
      (Wrap("informaltable", Wrap("tgroup", colspecs + Wrap("tbody", inner))), after)
    case Admonition(style, content) =>
      if style == "comment" then ([], context)
      else
        var (inner, after) := RenderAll(content, context, [Chars(" ")]);
        (Wrap(style, inner), after)
    case Remark(content) =>
      var (inner, after) := RenderAll(content, context, [Chars(" ")]);
      (Wrap("para", Wrap("remark", inner)), after)
    case Anchor(_) => ([Empty("anchor")], context)
  }

  /** Elements one after the other, joined by a separator, passing the context on. */
  function RenderAll(es: seq<Element>, context: Context, separator: seq<Tag>): (seq<Tag>, Context)
    decreases es, 0
  {
    if es == [] then ([], context)
    else
      var (first, between) := Render(es[0], context);
      var (rest, after) := RenderAll(es[1..], between, separator);
      (first + (if |es| > 1 then separator else []) + rest, after)
  }

  // ---------- Balance ----------

  /** The names open after reading tags with the given names open; None at a mismatched end tag. */
  function Read(stack: seq<string>, tags: seq<Tag>): Option<seq<string>>
    decreases tags
  {
    if tags == [] then Some(stack)
    else match tags[0]
      case Open(name) => Read(stack + [name], tags[1..])
      case Close(name) =>
        if stack != [] && stack[|stack| - 1] == name then Read(stack[..|stack| - 1], tags[1..]) else None
      case _ => Read(stack, tags[1..])
  }

  /** Tags that leave any open names as they were. */
  ghost predicate IsBalanced(tags: seq<Tag>) {
    forall stack :: Read(stack, tags) == Some(stack)
  }

  lemma {:induction false} ReadConcat(stack: seq<string>, s: seq<Tag>, t: seq<Tag>)
    ensures Read(stack, s + t) == if Read(stack, s).Some? then Read(Read(stack, s).value, t) else None
    decreases s
  {
    if s == [] {
      assert s + t == t;
    } else {
      assert (s + t)[1..] == s[1..] + t;
      match s[0]
      case Open(name) => ReadConcat(stack + [name], s[1..], t);
      case Close(name) =>
        if stack != [] && stack[|stack| - 1] == name {
          ReadConcat(stack[..|stack| - 1], s[1..], t);
        }
      case _ => ReadConcat(stack, s[1..], t);
    }
  }

  lemma ReadOne(stack: seq<string>, tag: Tag)
    ensures Read(stack, [tag]) ==
            if tag.Open? then Some(stack + [tag.name])
            else if !tag.Close? then Some(stack)
            else if stack != [] && stack[|stack| - 1] == tag.name then Some(stack[..|stack| - 1])
            else None
  {
    assert [tag][1..] == [];
  }

  lemma BalancedConcat(s: seq<Tag>, t: seq<Tag>)
    requires IsBalanced(s) && IsBalanced(t)
    ensures IsBalanced(s + t)
  {
    forall stack ensures Read(stack, s + t) == Some(stack) {
      ReadConcat(stack, s, t);
    }
  }

  lemma BalancedWrap(name: string, inner: seq<Tag>)
    requires IsBalanced(inner)
    ensures IsBalanced(Wrap(name, inner))
  {
    forall stack ensures Read(stack, Wrap(name, inner)) == Some(stack) {
      ReadConcat(stack, [Open(name)] + inner, [Close(name)]);
      ReadConcat(stack, [Open(name)], inner);
      ReadOne(stack, Open(name));
      ReadOne(stack + [name], Close(name));
      assert (stack + [name])[..|stack|] == stack;
    }
  }

  lemma BalancedOne(tag: Tag)
    requires !tag.Open? && !tag.Close?
    ensures IsBalanced([tag])
  {
    forall stack ensures Read(stack, [tag]) == Some(stack) {
      ReadOne(stack, tag);
    }
  }

  lemma {:induction false} BalancedRepeat(name: string, n: nat)
    ensures IsBalanced(seq(n, _ => Empty(name)))
  {
    if n > 0 {
      BalancedRepeat(name, n - 1);
      BalancedOne(Empty(name));
      BalancedConcat([Empty(name)], seq(n - 1, _ => Empty(name)));
      assert seq(n, _ => Empty(name)) == [Empty(name)] + seq(n - 1, _ => Empty(name));
    }
  }

  predicate IsLeaf(e: Element) {
    e.Heading? || e.Silent? || e.Note? || e.PlainText? || e.Url? || e.MonospaceText? || e.UnderlineText?
    || e.CodeText? || e.Anchor?
  }

  lemma LeafIsBalanced(e: Element, context: Context)
    requires IsLeaf(e)
    ensures IsBalanced(Render(e, context).0)
  {
    match e
    case Heading(_, text) => BalancedOne(Chars(text)); BalancedWrap("title", [Chars(text)]);
    case Silent =>
    case Note => BalancedOne(Comment("not applicable to DocBook"));
    case PlainText(text) => BalancedOne(Chars(text));
    case Url(text) => BalancedOne(Empty("ulink"));
    case MonospaceText(text) => BalancedOne(Chars(text)); BalancedWrap("code", [Chars(text)]);
    case UnderlineText(text) => BalancedOne(Chars(text)); BalancedWrap("emphasis", [Chars(text)]);
    case CodeText(text) =>
      BalancedOne(Chars(text));
      BalancedWrap(if context == Some(true) then "code" else "screen", [Chars(text)]);
    case Anchor(_) => BalancedOne(Empty("anchor"));
  }

  /** The output of every element, however deeply nested, is balanced. */
  lemma {:induction false} RenderIsBalanced(e: Element, context: Context)
    ensures IsBalanced(Render(e, context).0)
    decreases e, 1
  {
    match e
    case ItalicText(content) => WrappedIsBalanced("emphasis", content, None, []);
    case BoldText(content) => WrappedIsBalanced("emphasis", content, None, []);
    case Paragraph(content) => WrappedIsBalanced("para", content, if context.Some? then Some(true) else None, []);
    case Link(isLocal, content) => WrappedIsBalanced(if isLocal then "link" else "ulink", content, context, []);
    case EmbeddedAttachment(content) => AttachmentIsBalanced(content, context);
    case ListItem(content) =>
      BalancedOne(Chars(" "));
      WrappedIsBalanced("listitem", content, context, [Chars(" ")]);
    case ListOf(numbered, items) =>
      WrappedIsBalanced(if numbered then "orderedlist" else "itemizedlist", items, context, []);
    case TableItem(content) =>
      BalancedOne(Empty("entry"));
      WrappedIsBalanced("entry", content, context, []);
    case TableRow(items) => WrappedIsBalanced("row", items, context, []);
    case Table(columns, rows) => TableIsBalanced(columns, rows, context);
    case Admonition(style, content) =>
      BalancedOne(Chars(" "));
      WrappedIsBalanced(style, content, context, [Chars(" ")]);
    case Remark(content) =>
      BalancedOne(Chars(" "));
      WrappedIsBalanced("remark", content, context, [Chars(" ")]);
      BalancedWrap("para", Wrap("remark", RenderAll(content, context, [Chars(" ")]).0));
    case _ => LeafIsBalanced(e, context);
  }

  lemma {:induction false} WrappedIsBalanced(name: string, content: seq<Element>, context: Context, separator: seq<Tag>)
    requires IsBalanced(separator)
    ensures IsBalanced(Wrap(name, RenderAll(content, context, separator).0))
    decreases content, 1
  {
    RenderAllIsBalanced(content, context, separator);
    BalancedWrap(name, RenderAll(content, context, separator).0);
  }

  lemma {:induction false} AttachmentIsBalanced(content: seq<Element>, context: Context)
    ensures IsBalanced(Render(EmbeddedAttachment(content), context).0)
    decreases content, 1
  {
    var inner := RenderAll(content, context, []).0;
    RenderAllIsBalanced(content, context, []);
    BalancedWrap("phrase", inner);
    BalancedWrap("textobject", Wrap("phrase", inner));
    BalancedOne(Empty("imagedata"));
    BalancedWrap("imageobject", [Empty("imagedata")]);
    var phrase := if content == [] then [] else Wrap("textobject", Wrap("phrase", inner));
    BalancedConcat(Wrap("imageobject", [Empty("imagedata")]), phrase);
    BalancedWrap("inlinemediaobject", Wrap("imageobject", [Empty("imagedata")]) + phrase);
  }

  lemma {:induction false} TableIsBalanced(columns: nat, rows: seq<Element>, context: Context)
    ensures IsBalanced(Render(Table(columns, rows), context).0)
    decreases rows, 1
  {
    var inner, colspecs := RenderAll(rows, context, []).0, seq(columns, _ => Empty("colspec"));
    RenderAllIsBalanced(rows, context, []);
    BalancedWrap("tbody", inner);
    BalancedRepeat("colspec", columns);
    BalancedConcat(colspecs, Wrap("tbody", inner));
    BalancedWrap("tgroup", colspecs + Wrap("tbody", inner));
    BalancedWrap("informaltable", Wrap("tgroup", colspecs + Wrap("tbody", inner)));
  }

  lemma {:induction false} RenderAllIsBalanced(es: seq<Element>, context: Context, separator: seq<Tag>)
    requires IsBalanced(separator)
    ensures IsBalanced(RenderAll(es, context, separator).0)
    decreases es, 0
  {
    if es != [] {
      var (first, between) := Render(es[0], context);
      var between' := if |es| > 1 then separator else [];
      RenderIsBalanced(es[0], context);
      RenderAllIsBalanced(es[1..], between, separator);
      BalancedConcat(first, between');
      BalancedConcat(first + between', RenderAll(es[1..], between, separator).0);
    }
  }

  // ---------- Sections ----------

  /** Levels beyond 5 count as 5. */
  function Level(e: Element): int {
    if e.Heading? && e.level < 5 then e.level else 5
  }

  /** No heading between the i-th element and the n-th is at the level of the i-th or above. */
  predicate StillOpen(es: seq<Element>, i: nat, n: nat)
    requires i < n <= |es|
  {
    es[i].Heading? && forall k | i < k < n && es[k].Heading? :: Level(es[k]) > Level(es[i])
  }

  /** The headings among the first m elements whose sections are open before the n-th. */
  function OpenAmong(es: seq<Element>, m: nat, n: nat): (r: seq<nat>)
    requires m <= n <= |es|
    ensures forall i | 0 <= i < |r| :: r[i] < m
  {
    if m == 0 then []
    else if StillOpen(es, m - 1, n) then OpenAmong(es, m - 1, n) + [m - 1]
    else OpenAmong(es, m - 1, n)
  }

  function OpenBefore(es: seq<Element>, n: nat): seq<nat>
    requires n <= |es|
  {
    OpenAmong(es, n, n)
  }

  lemma {:induction false} OpenMembers(es: seq<Element>, m: nat, n: nat, i: nat)
    requires m <= n <= |es|
    ensures i in OpenAmong(es, m, n) <==> i < m && StillOpen(es, i, n)
  {
    if m > 0 {
      OpenMembers(es, m - 1, n, i);
    }
  }

  /** Headings in reading order, with strictly increasing levels. */
  predicate IsDeepening(es: seq<Element>, open: seq<nat>)
    requires forall i | 0 <= i < |open| :: open[i] < |es|
  {
    forall a, b | 0 <= a < b < |open| :: open[a] < open[b] && Level(es[open[a]]) < Level(es[open[b]])
  }

  /** The levels of the open sections increase strictly. */
  lemma {:induction false} OpenLevelsIncrease(es: seq<Element>, m: nat, n: nat)
    requires m <= n <= |es|
    ensures IsDeepening(es, OpenAmong(es, m, n))
  {
    if m > 0 {
      OpenLevelsIncrease(es, m - 1, n);
      var open := OpenAmong(es, m - 1, n);
      if StillOpen(es, m - 1, n) {
        forall a | 0 <= a < |open| ensures Level(es[open[a]]) < Level(es[m - 1]) {
          assert open[a] in open;
          OpenMembers(es, m - 1, n, open[a]);
        }
      }
    }
  }

  function Shallower(es: seq<Element>, open: seq<nat>, level: int): seq<nat>
    requires forall i | 0 <= i < |open| :: open[i] < |es|
  {
    if open == [] then []
    else
      var front, last := Shallower(es, open[..|open| - 1], level), open[|open| - 1];
      if Level(es[last]) < level then front + [last] else front
  }

  /** A heading closes the sections at its level and below. */
  lemma {:induction false} OpenAfterHeading(es: seq<Element>, m: nat, n: nat)
    requires m <= n < |es| && es[n].Heading?
    ensures OpenAmong(es, m, n + 1) == Shallower(es, OpenAmong(es, m, n), Level(es[n]))
  {
    if m > 0 {
      OpenAfterHeading(es, m - 1, n);
      OneLater(es, m - 1, n);
      if StillOpen(es, m - 1, n) {
        ShallowerSnoc(es, OpenAmong(es, m - 1, n), m - 1, Level(es[n]));
      }
    }
  }

  /** Other elements close no section. */
  lemma {:induction false} OpenAfterOther(es: seq<Element>, m: nat, n: nat)
    requires m <= n < |es| && !es[n].Heading?
    ensures OpenAmong(es, m, n + 1) == OpenAmong(es, m, n)
  {
    if m > 0 {
      OpenAfterOther(es, m - 1, n);
      OneLater(es, m - 1, n);
    }
  }

  lemma OneLater(es: seq<Element>, i: nat, n: nat)
    requires i < n < |es|
    ensures StillOpen(es, i, n + 1) <==>
              StillOpen(es, i, n) && (es[n].Heading? ==> Level(es[i]) < Level(es[n]))
  {
  }

  lemma ShallowerSnoc(es: seq<Element>, open: seq<nat>, i: nat, level: int)
    requires forall k | 0 <= k < |open| :: open[k] < |es|
    requires i < |es|
    ensures Shallower(es, open + [i], level) ==
            if Level(es[i]) < level then Shallower(es, open, level) + [i] else Shallower(es, open, level)
  {
    assert (open + [i])[..|open|] == open;
  }

  lemma {:induction false} ShallowerIsPrefix(es: seq<Element>, open: seq<nat>, level: int, k: nat)
    requires forall i | 0 <= i < |open| :: open[i] < |es|
    requires k <= |open|
    requires forall i | 0 <= i < k :: Level(es[open[i]]) < level
    requires forall i | k <= i < |open| :: Level(es[open[i]]) >= level
    ensures Shallower(es, open, level) == open[..k]
  {
    if open != [] {
      var last := |open| - 1;
      ShallowerIsPrefix(es, open[..last], level, if k <= last then k else last);
      if k == |open| {
        assert open == open[..last] + [open[last]];
      } else {
        assert open[..last][..k] == open[..k];
      }
    }
  }

  function Ends(n: nat): seq<Tag> {
    if n == 0 then [] else Ends(n - 1) + [Close("section")]
  }

  /** How many sections the n-th element closes. */
  function Closed(es: seq<Element>, n: nat): int
    requires n < |es|
  {
    if es[n].Heading? then |OpenBefore(es, n)| + 1 - |OpenBefore(es, n + 1)| else 0
  }

  /** The section tags in front of the n-th element. */
  function Opening(es: seq<Element>, n: nat): seq<Tag>
    requires n < |es|
  {
    if !es[n].Heading? then []
    else (if Closed(es, n) > 0 then Ends(Closed(es, n)) else []) + [Open("section")]
  }

  /** The context in front of the n-th element. */
  function ContextAt(es: seq<Element>, n: nat): Context
    requires n <= |es|
  {
    if n == 0 then Some(false) else Render(es[n - 1], ContextAt(es, n - 1)).1
  }

  /** The output up to the n-th element. */
  function Stream(es: seq<Element>, n: nat): seq<Tag>
    requires n <= |es|
  {
    if n == 0 then []
    else Stream(es, n - 1) + Opening(es, n - 1) + Render(es[n - 1], ContextAt(es, n - 1)).0
  }

  function Document(es: seq<Element>): seq<Tag> {
    Stream(es, |es|) + Ends(|OpenBefore(es, |es|)|)
  }

  lemma HeadingStep(es: seq<Element>, n: nat, k: nat)
    requires n < |es| && es[n].Heading? && k <= |OpenBefore(es, n)|
    requires forall i | 0 <= i < k :: Level(es[OpenBefore(es, n)[i]]) < Level(es[n])
    requires forall i | k <= i < |OpenBefore(es, n)| :: Level(es[OpenBefore(es, n)[i]]) >= Level(es[n])
    ensures OpenBefore(es, n + 1) == OpenBefore(es, n)[..k] + [n]
    ensures Opening(es, n) == Ends(|OpenBefore(es, n)| - k) + [Open("section")]
  {
    HeadingOpens(es, n, OpenBefore(es, n), k);
    ClosedCount(es, n, OpenBefore(es, n), k);
  }

  lemma HeadingOpens(es: seq<Element>, n: nat, open: seq<nat>, k: nat)
    requires n < |es| && es[n].Heading? && open == OpenBefore(es, n) && k <= |open|
    requires forall i | 0 <= i < k :: Level(es[open[i]]) < Level(es[n])
    requires forall i | k <= i < |open| :: Level(es[open[i]]) >= Level(es[n])
    ensures OpenBefore(es, n + 1) == open[..k] + [n]
  {
    OpenAfterHeading(es, n, n);
    ShallowerIsPrefix(es, open, Level(es[n]), k);
    OpenItself(es, n);
  }

  lemma OpenItself(es: seq<Element>, n: nat)
    requires n < |es| && es[n].Heading?
    ensures OpenBefore(es, n + 1) == OpenAmong(es, n, n + 1) + [n]
  {
    assert StillOpen(es, n, n + 1);
  }

  lemma ClosedCount(es: seq<Element>, n: nat, open: seq<nat>, k: nat)
    requires n < |es| && es[n].Heading? && open == OpenBefore(es, n) && k <= |open|
    requires OpenBefore(es, n + 1) == open[..k] + [n]
    ensures Opening(es, n) == Ends(|open| - k) + [Open("section")]
  {
    assert Closed(es, n) == |open| - k;
    assert Ends(0) == [];
  }

  lemma OtherStep(es: seq<Element>, n: nat)
    requires n < |es| && !es[n].Heading?
    ensures OpenBefore(es, n + 1) == OpenBefore(es, n)
  {
    OpenAfterOther(es, n, n);
    assert !StillOpen(es, n, n + 1);
  }

  /** If the k-th open section is above a heading, so are those around it. */
  lemma DeepestDecides(es: seq<Element>, n: nat, k: nat)
    requires n < |es| && es[n].Heading? && k <= |OpenBefore(es, n)|
    requires k > 0 ==> Level(es[OpenBefore(es, n)[k - 1]]) < Level(es[n])
    ensures forall i | 0 <= i < k :: Level(es[OpenBefore(es, n)[i]]) < Level(es[n])
  {
    OpenLevelsIncrease(es, n, n);
  }

  predicate IsLevels(es: seq<Element>, open: seq<nat>, levels: seq<int>)
    requires forall i | 0 <= i < |open| :: open[i] < |es|
  {
    |levels| == |open| && forall i | 0 <= i < |open| :: levels[i] == Level(es[open[i]])
  }

  /** The inner loop at a heading. */
  method CloseSections(es: seq<Element>, n: nat, sections: seq<int>) returns (ends: seq<Tag>, left: seq<int>)
    requires n < |es| && es[n].Heading?
    requires IsLevels(es, OpenBefore(es, n), sections)
    ensures Opening(es, n) == ends + [Open("section")]
    ensures IsLevels(es, OpenBefore(es, n + 1), left + [Level(es[n])])
  {
    ends, left := [], sections;
    while left != [] && Level(es[n]) <= left[|left| - 1]
      invariant |left| <= |sections| && left == sections[..|left|]
      invariant ends == Ends(|sections| - |left|)
      invariant forall i | |left| <= i < |sections| :: sections[i] >= Level(es[n])
    {
      ends := ends + [Close("section")];
      left := left[..|left| - 1];
    }
    DeepestDecides(es, n, |left|);
    HeadingStep(es, n, |left|);
  }

  lemma StreamStep(es: seq<Element>, n: nat)
    requires n < |es|
    ensures Stream(es, n + 1) == Stream(es, n) + Opening(es, n) + Render(es[n], ContextAt(es, n)).0
    ensures ContextAt(es, n + 1) == Render(es[n], ContextAt(es, n)).1
  {
  }

  /** The tags in front of an element: the ends of sections and the start of one. */
  method OpenSection(es: seq<Element>, n: nat, sections: seq<int>) returns (tags: seq<Tag>, left: seq<int>)
    requires n < |es| && IsLevels(es, OpenBefore(es, n), sections)
    ensures tags == Opening(es, n) && IsLevels(es, OpenBefore(es, n + 1), left)
  {
    if !es[n].Heading? {
      OtherStep(es, n);
      return [], sections;
    }
    tags, left := CloseSections(es, n, sections);
    tags := tags + [Open("section")];
    left := left + [Level(es[n])];
  }

  method GenerateInnerDocbook(es: seq<Element>) returns (out: seq<Tag>)
    ensures out == Document(es)
  {
    out := [];
    var sections: seq<int> := [];
    var context: Context := Some(false);
    for n := 0 to |es|
      invariant out == Stream(es, n) && context == ContextAt(es, n)
      invariant IsLevels(es, OpenBefore(es, n), sections)
    {
      var tags;
      tags, sections := OpenSection(es, n, sections);
      var (own, after) := Render(es[n], context);
      StreamStep(es, n);
      out, context := out + tags + own, after;
    }
    ghost var body := out;
    for k := 0 to |sections|
      invariant out == body + Ends(k)
    {
      out := out + [Close("section")];
      assert Ends(k + 1) == Ends(k) + [Close("section")];
    }
  }

  // ---------- The document as a whole ----------

  function Sections(n: nat): (r: seq<string>)
    ensures |r| == n
  {
    if n == 0 then [] else Sections(n - 1) + ["section"]
  }

  lemma {:induction false} ReadEnds(k: nat, n: nat)
    requires n <= k
    ensures Read(Sections(k), Ends(n)) == Some(Sections(k - n))
    decreases n
  {
    if n > 0 {
      ReadEnds(k, n - 1);
      ReadConcat(Sections(k), Ends(n - 1), [Close("section")]);
      ReadOne(Sections(k - n + 1), Close("section"));
      assert Sections(k - n + 1)[..k - n] == Sections(k - n);
    }
  }

  /** The open sections above a heading are the first ones. */
  lemma FirstToClose(es: seq<Element>, n: nat) returns (k: nat)
    requires n < |es| && es[n].Heading?
    ensures k <= |OpenBefore(es, n)|
    ensures forall i | 0 <= i < k :: Level(es[OpenBefore(es, n)[i]]) < Level(es[n])
    ensures forall i | k <= i < |OpenBefore(es, n)| :: Level(es[OpenBefore(es, n)[i]]) >= Level(es[n])
  {
    var open := OpenBefore(es, n);
    k := |open|;
    while k > 0 && Level(es[open[k - 1]]) >= Level(es[n])
      invariant 0 <= k <= |open|
      invariant forall i | k <= i < |open| :: Level(es[open[i]]) >= Level(es[n])
    {
      k := k - 1;
    }
    DeepestDecides(es, n, k);
  }

  lemma ReadEndsAndStart(open: nat, k: nat)
    requires k <= open
    ensures Leads(Sections(open), Ends(open - k) + [Open("section")], Sections(k + 1))
  {
    ReadEnds(open, open - k);
    ReadConcat(Sections(open), Ends(open - k), [Open("section")]);
    ReadOne(Sections(k), Open("section"));
    assert Sections(k) + ["section"] == Sections(k + 1);
  }

  lemma ReadOpening(es: seq<Element>, n: nat)
    requires n < |es|
    ensures Leads(OpenNames(es, n), Opening(es, n), OpenNames(es, n + 1))
  {
    if es[n].Heading? {
      var k := FirstToClose(es, n);
      HeadingStep(es, n, k);
      ReadEndsAndStart(|OpenBefore(es, n)|, k);
    } else {
      OtherStep(es, n);
    }
  }

  /** Reading the tags leads from the one stack of open names to the other. */
  predicate Leads(before: seq<string>, tags: seq<Tag>, after: seq<string>) {
    Read(before, tags) == Some(after)
  }

  lemma ReadThree(none: seq<string>, first: seq<string>, second: seq<string>, before: seq<Tag>, opening: seq<Tag>,
                  own: seq<Tag>)
    requires Leads(none, before, first) && Leads(first, opening, second) && IsBalanced(own)
    ensures Leads(none, before + opening + own, second)
  {
    ReadConcat(none, before, opening);
    ReadConcat(none, before + opening, own);
  }

  function OpenNames(es: seq<Element>, n: nat): seq<string>
    requires n <= |es|
  {
    Sections(|OpenBefore(es, n)|)
  }

  lemma NextLeavesOpen(es: seq<Element>, n: nat)
    requires n < |es| && Leads([], Stream(es, n), OpenNames(es, n))
    ensures Leads([], Stream(es, n + 1), OpenNames(es, n + 1))
  {
    var opening, own := Opening(es, n), Render(es[n], ContextAt(es, n)).0;
    ReadOpening(es, n);
    RenderIsBalanced(es[n], ContextAt(es, n));
    ReadThree([], OpenNames(es, n), OpenNames(es, n + 1), Stream(es, n), opening, own);
  }

  lemma NoneOpen(es: seq<Element>)
    ensures Stream(es, 0) == [] && OpenNames(es, 0) == []
  {
  }

  /** After any number of elements exactly those sections are open whose headings are not yet
      followed by one at their level or above. */
  lemma StreamLeavesOpen(es: seq<Element>, n: nat)
    requires n <= |es|
    ensures Leads([], Stream(es, n), OpenNames(es, n))
  {
    NoneOpen(es);
    for k := 0 to n
      invariant Leads([], Stream(es, k), OpenNames(es, k))
    {
      NextLeavesOpen(es, k);
    }
  }

  /** The document is balanced for every list of elements: every section is closed exactly once,
      before the next heading at its level or above, or at the end. */
  lemma DocumentIsBalanced(es: seq<Element>)
    ensures Leads([], Document(es), [])
  {
    var n := |OpenBefore(es, |es|)|;
    StreamLeavesOpen(es, |es|);
    ReadEnds(n, n);
    ReadConcat([], Stream(es, |es|), Ends(n));
    assert Sections(0) == [];
  }

  /** The sections open before an element, outermost first: exactly the headings not yet followed
      by one at their level or above, with strictly increasing levels. */
  lemma OpenSectionsExactly(es: seq<Element>, n: nat, i: nat)
    requires n <= |es|
    ensures i in OpenBefore(es, n) <==> i < n && StillOpen(es, i, n)
    ensures IsDeepening(es, OpenBefore(es, n))
  {
    OpenMembers(es, n, n, i);
    OpenLevelsIncrease(es, n, n);
  }

  /** A heading right after another one closes its section unless it is deeper; from level 5 on all
      levels are alike. */
  lemma NextHeadingCloses(es: seq<Element>, n: nat)
    requires n + 1 < |es| && es[n].Heading? && es[n + 1].Heading?
    ensures n in OpenBefore(es, n + 2) <==> es[n].level < es[n + 1].level && es[n].level < 5
  {
    OpenMembers(es, n + 2, n + 2, n);
    assert Level(es[n]) < Level(es[n + 1]) <==> es[n].level < es[n + 1].level && es[n].level < 5;
  }
}
