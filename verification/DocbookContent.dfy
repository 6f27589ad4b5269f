/** What the DocBook output contains and where (doc/scripts/wikiparser.py): each piece of text and each
    tag of a document, in order, with the names of the tags around it. */
module DocbookContent {
  import opened Wrappers
  import opened Docbook

  /** A start tag, an empty tag or a text, and the names open around it. */
  datatype Placed = Placed(stack: seq<string>, tag: Tag)

  /** What a stream of tags places, read with the given names open. */
  function Trace(stack: seq<string>, tags: seq<Tag>): seq<Placed>
    decreases tags
  {
    if tags == [] then []
    else match tags[0]
      case Open(name) => [Placed(stack, tags[0])] + Trace(stack + [name], tags[1..])
      case Close(_) => Trace(if stack == [] then [] else stack[..|stack| - 1], tags[1..])
      case _ => [Placed(stack, tags[0])] + Trace(stack, tags[1..])
  }

  // ---------- What each element is to place ----------

  predicate IsSilent(e: Element) {
    e.Silent? || (e.Admonition? && e.style == "comment")
  }

  function Children(e: Element): seq<Element> {
    match e
    case ItalicText(content) => content
    case BoldText(content) => content
    case Paragraph(content) => content
    case Link(_, content) => content
    case EmbeddedAttachment(content) => content
    case ListItem(content) => content
    case ListOf(_, items) => items
    case TableItem(content) => content
    case TableRow(items) => items
    case Table(_, rows) => rows
    case Admonition(_, content) => content
    case Remark(content) => content
    case _ => []
  }

  /** What stands between the children. */
  function Separator(e: Element): seq<Tag> {
    if e.ListItem? || e.Admonition? || e.Remark? then [Chars(" ")] else []
  }

  /** Text of the element itself. */
  function OwnText(e: Element): seq<Tag> {
    match e
    case Heading(_, text) => [Chars(text)]
    case PlainText(text) => [Chars(text)]
    case MonospaceText(text) => [Chars(text)]
    case UnderlineText(text) => [Chars(text)]
    case CodeText(text) => [Chars(text)]
    case _ => []
  }

  /** The names around the text and the children of an element, outermost first. */
  function Names(e: Element, inParagraph: bool): seq<string> {
    match e
    case Heading(_, _) => ["title"]
    case ItalicText(_) => ["emphasis"]
    case BoldText(_) => ["emphasis"]
    case UnderlineText(_) => ["emphasis"]
    case MonospaceText(_) => ["code"]
    case CodeText(_) => if inParagraph then ["code"] else ["screen"]
    case Paragraph(_) => ["para"]
    case Link(isLocal, _) => if isLocal then ["link"] else ["ulink"]
    case EmbeddedAttachment(_) => ["inlinemediaobject", "textobject", "phrase"]
    case ListItem(_) => ["listitem"]
    case ListOf(numbered, _) => if numbered then ["orderedlist"] else ["itemizedlist"]
    case TableItem(_) => ["entry"]
    case TableRow(_) => ["row"]
    case Table(_, _) => ["informaltable", "tgroup", "tbody"]
    case Admonition(style, _) => [style]
    case Remark(_) => ["para", "remark"]
    case _ => []
  }

  /** The context that the children see: emphasis does not pass it on, and a paragraph marks it. */
  function Inside(e: Element, context: Context): Context {
    if e.ItalicText? || e.BoldText? then None
    else if e.Paragraph? && context.Some? then Some(true)
    else context
  }

  /** Whether a paragraph is the element or in it, other than in emphasis. */
  predicate HoldsParagraph(e: Element)
    decreases e, 1
  {
    || e.Paragraph?
    || (!IsLeaf(e) && !IsSilent(e) && !e.ItalicText? && !e.BoldText? && SomeHolds(Children(e)))
  }

  predicate SomeHolds(es: seq<Element>)
    decreases es, 0
  {
    es != [] && (HoldsParagraph(es[0]) || SomeHolds(es[1..]))
  }

  /** A shared context is marked as outside of paragraphs by the end of any paragraph. */
  function Marked(context: Context, paragraph: bool): Context {
    if context.Some? && paragraph then Some(false) else context
  }

  function Nested(stack: seq<string>, names: seq<string>): seq<Placed>
    decreases names
  {
    if names == [] then [] else [Placed(stack, Open(names[0]))] + Nested(stack + [names[0]], names[1..])
  }

  function AllAt(stack: seq<string>, tags: seq<Tag>): seq<Placed> {
    if tags == [] then [] else [Placed(stack, tags[0])] + AllAt(stack, tags[1..])
  }

  function Repeated(tag: Tag, n: nat): (r: seq<Tag>)
    ensures |r| == n && forall i | 0 <= i < n :: r[i] == tag
  {
    if n == 0 then [] else [tag] + Repeated(tag, n - 1)
  }

  function Image(stack: seq<string>): seq<Placed> {
    var media := stack + ["inlinemediaobject"];
    [Placed(stack, Open("inlinemediaobject")), Placed(media, Open("imageobject")),
     Placed(media + ["imageobject"], Empty("imagedata"))]
  }

  /** What an element places with the given names around it. */
  function Content(stack: seq<string>, e: Element, context: Context): seq<Placed>
    decreases e, 1
  {
    if IsSilent(e) then []
    else if e.Note? then [Placed(stack, Comment("not applicable to DocBook"))]
    else if e.Url? then [Placed(stack, Empty("ulink"))]
    else if e.Anchor? then [Placed(stack, Empty("anchor"))]
    else if e == TableItem([]) then [Placed(stack, Empty("entry"))]
    else if IsLeaf(e) then
      var names := Names(e, context == Some(true));
      Nested(stack, names) + AllAt(stack + names, OwnText(e))
    else if e.EmbeddedAttachment? then
      var media := stack + ["inlinemediaobject"];
      Image(stack)
      + if e.content == [] then []
        else Nested(media, ["textobject", "phrase"])
             + ContentAll(media + ["textobject", "phrase"], e.content, context, [])
    else if e.Table? then
      var group := stack + ["informaltable", "tgroup"];
      Nested(stack, ["informaltable", "tgroup"]) + AllAt(group, Repeated(Empty("colspec"), e.columns))
      + [Placed(group, Open("tbody"))] + ContentAll(group + ["tbody"], e.rows, context, [])
    else
      var names := Names(e, context == Some(true));
      Nested(stack, names) + ContentAll(stack + names, Children(e), Inside(e, context), Separator(e))
  }

  function ContentAll(stack: seq<string>, es: seq<Element>, context: Context, separator: seq<Tag>): seq<Placed>
    decreases es, 0
  {
    if es == [] then []
    else
      Content(stack, es[0], context)
      + (if |es| > 1 then AllAt(stack, separator) else [])
      + ContentAll(stack, es[1..], Marked(context, HoldsParagraph(es[0])), separator)
  }

  // ---------- Reading tags ----------

  lemma {:induction false} TraceConcat(stack: seq<string>, s: seq<Tag>, t: seq<Tag>)
    requires Read(stack, s).Some?
    ensures Trace(stack, s + t) == Trace(stack, s) + Trace(Read(stack, s).value, t)
    decreases s
  {
    if s == [] {
      assert s + t == t;
    } else {
      var rest := s[1..];
      assert (s + t)[1..] == rest + t;
      match s[0]
      case Open(name) => TraceConcat(stack + [name], rest, t);
      case Close(name) => TraceConcat(stack[..|stack| - 1], rest, t);
      case _ => TraceConcat(stack, rest, t);
    }
  }

  lemma TraceAfter(stack: seq<string>, s: seq<Tag>, t: seq<Tag>)
    requires IsBalanced(s)
    ensures Trace(stack, s + t) == Trace(stack, s) + Trace(stack, t)
  {
    assert Read(stack, s) == Some(stack);
    TraceConcat(stack, s, t);
  }

  lemma TraceOne(stack: seq<string>, tag: Tag)
    ensures Trace(stack, [tag]) == if tag.Close? then [] else [Placed(stack, tag)]
  {
    assert [tag][1..] == [];
  }

  lemma TraceWrap(stack: seq<string>, name: string, inner: seq<Tag>)
    requires IsBalanced(inner)
    ensures Trace(stack, Wrap(name, inner)) == [Placed(stack, Open(name))] + Trace(stack + [name], inner)
  {
    var open, within := [Open(name)], stack + [name];
    assert Wrap(name, inner) == open + (inner + [Close(name)]);
    ReadOne(stack, Open(name));
    TraceConcat(stack, open, inner + [Close(name)]);
    TraceOne(stack, Open(name));
    TraceAfter(within, inner, [Close(name)]);
    TraceOne(within, Close(name));
  }

  lemma {:induction false} TraceFlat(stack: seq<string>, tags: seq<Tag>)
    requires forall i | 0 <= i < |tags| :: !tags[i].Open? && !tags[i].Close?
    ensures Trace(stack, tags) == AllAt(stack, tags)
    ensures IsBalanced(tags)
    decreases tags
  {
    if tags != [] {
      TraceFlat(stack, tags[1..]);
      BalancedOne(tags[0]);
      BalancedConcat([tags[0]], tags[1..]);
      assert tags == [tags[0]] + tags[1..];
    }
  }

  // ---------- Elements ----------

  /** Rendering leaves a shared context marked exactly as the paragraphs in the element say. */
  lemma {:induction false} ContextAfter(e: Element, context: Context)
    ensures Render(e, context).1 == Marked(context, HoldsParagraph(e))
    decreases e, 1
  {
    if !IsLeaf(e) && !IsSilent(e) && !e.ItalicText? && !e.BoldText? && !e.Paragraph? {
      ContextAfterAll(Children(e), context, Separator(e));
    }
  }

  lemma {:induction false} ContextAfterAll(es: seq<Element>, context: Context, separator: seq<Tag>)
    ensures RenderAll(es, context, separator).1 == Marked(context, SomeHolds(es))
    decreases es, 0
  {
    if es != [] {
      ContextAfter(es[0], context);
      ContextAfterAll(es[1..], Render(es[0], context).1, separator);
    }
  }

  predicate IsFlat(tags: seq<Tag>) {
    forall i | 0 <= i < |tags| :: !tags[i].Open? && !tags[i].Close?
  }

  lemma {:induction false} RenderAllTrace(stack: seq<string>, es: seq<Element>, context: Context, separator: seq<Tag>)
    requires IsFlat(separator)
    ensures Trace(stack, RenderAll(es, context, separator).0) == ContentAll(stack, es, context, separator)
    decreases es, 0
  {
    if es != [] {
      var (first, between) := Render(es[0], context);
      var gap, rest := if |es| > 1 then separator else [], RenderAll(es[1..], between, separator).0;
      RenderIsBalanced(es[0], context);
      RenderTrace(stack, es[0], context);
      ContextAfter(es[0], context);
      RenderAllTrace(stack, es[1..], between, separator);
      TraceFlat(stack, gap);
      TraceAfter(stack, first, gap);
      BalancedConcat(first, gap);
      TraceAfter(stack, first + gap, rest);
    }
  }

  lemma {:induction false} WrappedTrace(stack: seq<string>, name: string, es: seq<Element>, context: Context,
                                        separator: seq<Tag>)
    requires IsFlat(separator)
    ensures Trace(stack, Wrap(name, RenderAll(es, context, separator).0)) ==
            Nested(stack, [name]) + ContentAll(stack + [name], es, context, separator)
    ensures IsBalanced(Wrap(name, RenderAll(es, context, separator).0))
    decreases es, 1
  {
    TraceFlat(stack, separator);
    RenderAllIsBalanced(es, context, separator);
    BalancedWrap(name, RenderAll(es, context, separator).0);
    TraceWrap(stack, name, RenderAll(es, context, separator).0);
    RenderAllTrace(stack + [name], es, context, separator);
    NestedOne(stack, name);
  }

  lemma NestedOne(stack: seq<string>, name: string)
    ensures Nested(stack, [name]) == [Placed(stack, Open(name))]
  {
    assert [name][1..] == [];
  }

  lemma NestedTwo(stack: seq<string>, outer: string, inner: string)
    ensures Nested(stack, [outer, inner]) == [Placed(stack, Open(outer)), Placed(stack + [outer], Open(inner))]
    ensures stack + [outer] + [inner] == stack + [outer, inner]
  {
    assert [outer, inner][1..] == [inner];
    NestedOne(stack + [outer], inner);
  }

  lemma LeafTrace(stack: seq<string>, e: Element, context: Context)
    requires IsLeaf(e)
    ensures Trace(stack, Render(e, context).0) == Content(stack, e, context)
  {
    if OwnText(e) != [] {
      var text := OwnText(e)[0];
      assert OwnText(e) == [text];
      TraceFlat(stack, [text]);
      if e.PlainText? {
        assert stack + [] == stack;
      } else {
        var name := Names(e, context == Some(true))[0];
        TraceFlat(stack + [name], [text]);
        TraceWrap(stack, name, [text]);
        NestedOne(stack, name);
      }
    } else if !e.Silent? {
      TraceOne(stack, Render(e, context).0[0]);
    }
  }

  lemma TraceTwoWraps(stack: seq<string>, outer: string, inner: string, tags: seq<Tag>)
    requires IsBalanced(tags)
    ensures Trace(stack, Wrap(outer, Wrap(inner, tags))) ==
            Nested(stack, [outer, inner]) + Trace(stack + [outer, inner], tags)
    ensures IsBalanced(Wrap(outer, Wrap(inner, tags)))
  {
    BalancedWrap(inner, tags);
    BalancedWrap(outer, Wrap(inner, tags));
    TraceWrap(stack, outer, Wrap(inner, tags));
    TraceWrap(stack + [outer], inner, tags);
    NestedTwo(stack, outer, inner);
  }

  /** Elements whose names stand around their children and nothing else. */
  predicate IsFrame(e: Element) {
    && !IsLeaf(e) && !IsSilent(e) && !e.EmbeddedAttachment? && !e.Table?
    && e != TableItem([])
  }

  lemma ContentOfFrame(stack: seq<string>, e: Element, context: Context)
    requires IsFrame(e)
    ensures var names := Names(e, context == Some(true));
            Content(stack, e, context) ==
            Nested(stack, names) + ContentAll(stack + names, Children(e), Inside(e, context), Separator(e))
  {
  }

  lemma RenderOfRemark(content: seq<Element>, context: Context)
    ensures Render(Remark(content), context).0 ==
            Wrap("para", Wrap("remark", RenderAll(content, context, [Chars(" ")]).0))
  {
  }

  lemma {:induction false} RemarkTrace(stack: seq<string>, content: seq<Element>, context: Context)
    ensures Trace(stack, Render(Remark(content), context).0) == Content(stack, Remark(content), context)
    decreases content, 2
  {
    var space := [Chars(" ")];
    TraceFlat(stack, space);
    RenderAllIsBalanced(content, context, space);
    TraceTwoWraps(stack, "para", "remark", RenderAll(content, context, space).0);
    RenderAllTrace(stack + ["para", "remark"], content, context, space);
    ContentOfFrame(stack, Remark(content), context);
    RenderOfRemark(content, context);
  }

  lemma {:induction false} PhraseTrace(media: seq<string>, content: seq<Element>, context: Context)
    ensures var phrase := Wrap("textobject", Wrap("phrase", RenderAll(content, context, []).0));
            Trace(media, phrase) ==
            Nested(media, ["textobject", "phrase"]) + ContentAll(media + ["textobject", "phrase"], content, context, [])
    ensures IsBalanced(Wrap("textobject", Wrap("phrase", RenderAll(content, context, []).0)))
    decreases content, 1
  {
    RenderAllIsBalanced(content, context, []);
    TraceTwoWraps(media, "textobject", "phrase", RenderAll(content, context, []).0);
    RenderAllTrace(media + ["textobject", "phrase"], content, context, []);
  }

  lemma ImageTrace(media: seq<string>)
    ensures var image := Wrap("imageobject", [Empty("imagedata")]);
            Trace(media, image) ==
            [Placed(media, Open("imageobject"))] + [Placed(media + ["imageobject"], Empty("imagedata"))]
    ensures IsBalanced(Wrap("imageobject", [Empty("imagedata")]))
  {
    BalancedOne(Empty("imagedata"));
    BalancedWrap("imageobject", [Empty("imagedata")]);
    TraceWrap(media, "imageobject", [Empty("imagedata")]);
    TraceOne(media + ["imageobject"], Empty("imagedata"));
  }

  lemma ContentOfAttachment(stack: seq<string>, content: seq<Element>, context: Context)
    ensures var media, names := stack + ["inlinemediaobject"], ["textobject", "phrase"];
            Content(stack, EmbeddedAttachment(content), context) ==
            if content == [] then Image(stack)
            else Image(stack) + (Nested(media, names) + ContentAll(media + names, content, context, []))
  {
  }

  function ImageTags(): seq<Tag> {
    Wrap("imageobject", [Empty("imagedata")])
  }

  function PhraseTags(content: seq<Element>, context: Context): seq<Tag> {
    if content == [] then [] else Wrap("textobject", Wrap("phrase", RenderAll(content, context, []).0))
  }

  lemma RenderOfAttachment(content: seq<Element>, context: Context)
    ensures Render(EmbeddedAttachment(content), context).0 ==
            Wrap("inlinemediaobject", ImageTags() + PhraseTags(content, context))
  {
  }

  lemma {:induction false} AttachmentTrace(stack: seq<string>, content: seq<Element>, context: Context)
    ensures Trace(stack, Render(EmbeddedAttachment(content), context).0) ==
            Content(stack, EmbeddedAttachment(content), context)
    decreases content, 2
  {
    var media, phrase := stack + ["inlinemediaobject"], PhraseTags(content, context);
    ImageTrace(media);
    if content == [] {
      TraceFlat(media, phrase);
    } else {
      PhraseTrace(media, content, context);
    }
    TraceAfter(media, ImageTags(), phrase);
    BalancedConcat(ImageTags(), phrase);
    TraceWrap(stack, "inlinemediaobject", ImageTags() + phrase);
    RenderOfAttachment(content, context);
    ContentOfAttachment(stack, content, context);
  }

  function Colspecs(n: nat): seq<Tag> {
    seq(n, _ => Empty("colspec"))
  }

  lemma {:induction false} GroupTrace(group: seq<string>, columns: nat, rows: seq<Element>, context: Context)
    ensures var tags := Colspecs(columns) + Wrap("tbody", RenderAll(rows, context, []).0);
            && Trace(group, tags) == AllAt(group, Repeated(Empty("colspec"), columns))
                                     + [Placed(group, Open("tbody"))] + ContentAll(group + ["tbody"], rows, context, [])
            && IsBalanced(tags)
    decreases rows, 2
  {
    var colspecs, body := Colspecs(columns), Wrap("tbody", RenderAll(rows, context, []).0);
    assert colspecs == Repeated(Empty("colspec"), columns);
    TraceFlat(group, colspecs);
    WrappedTrace(group, "tbody", rows, context, []);
    TraceAfter(group, colspecs, body);
    BalancedConcat(colspecs, body);
    NestedOne(group, "tbody");
  }

  lemma ContentOfTable(stack: seq<string>, columns: nat, rows: seq<Element>, context: Context)
    ensures var group := stack + ["informaltable", "tgroup"];
            Content(stack, Table(columns, rows), context) ==
            Nested(stack, ["informaltable", "tgroup"])
            + (AllAt(group, Repeated(Empty("colspec"), columns))
               + [Placed(group, Open("tbody"))] + ContentAll(group + ["tbody"], rows, context, []))
  {
  }

  lemma RenderOfTable(columns: nat, rows: seq<Element>, context: Context)
    ensures Render(Table(columns, rows), context).0 ==
            Wrap("informaltable", Wrap("tgroup", Colspecs(columns) + Wrap("tbody", RenderAll(rows, context, []).0)))
  {
  }

  lemma {:induction false} TableTrace(stack: seq<string>, columns: nat, rows: seq<Element>, context: Context)
    ensures Trace(stack, Render(Table(columns, rows), context).0) == Content(stack, Table(columns, rows), context)
    decreases rows, 3
  {
    var tags := Colspecs(columns) + Wrap("tbody", RenderAll(rows, context, []).0);
    GroupTrace(stack + ["informaltable", "tgroup"], columns, rows, context);
    TraceTwoWraps(stack, "informaltable", "tgroup", tags);
    ContentOfTable(stack, columns, rows, context);
    RenderOfTable(columns, rows, context);
  }

  lemma RenderOfFrame(e: Element, context: Context)
    requires IsFrame(e) && !e.Remark?
    ensures var names := Names(e, context == Some(true));
            && |names| == 1
            && Render(e, context).0 == Wrap(names[0], RenderAll(Children(e), Inside(e, context), Separator(e)).0)
  {
  }

  lemma {:induction false} FrameTrace(stack: seq<string>, e: Element, context: Context)
    requires IsFrame(e) && !e.Remark?
    ensures Trace(stack, Render(e, context).0) == Content(stack, e, context)
    decreases e, 0
  {
    var names := Names(e, context == Some(true));
    RenderOfFrame(e, context);
    ContentOfFrame(stack, e, context);
    WrappedTrace(stack, names[0], Children(e), Inside(e, context), Separator(e));
    assert names == [names[0]];
  }

  /** Every element places exactly its content. */
  lemma {:induction false} RenderTrace(stack: seq<string>, e: Element, context: Context)
    ensures Trace(stack, Render(e, context).0) == Content(stack, e, context)
    decreases e, 1
  {
    if IsLeaf(e) {
      LeafTrace(stack, e, context);
    } else if IsSilent(e) {
      assert Render(e, context).0 == [];
    } else if e == TableItem([]) {
      TraceOne(stack, Empty("entry"));
    } else if e.Table? {
      TableTrace(stack, e.columns, e.rows, context);
    } else if e.EmbeddedAttachment? {
      AttachmentTrace(stack, e.content, context);
    } else if e.Remark? {
      RemarkTrace(stack, e.content, context);
    } else {
      FrameTrace(stack, e, context);
    }
  }

  // ---------- The text of a document ----------

  function TextOf(tags: seq<Tag>): seq<string> {
    if tags == [] then []
    else (if tags[0].Chars? then [tags[0].text] else []) + TextOf(tags[1..])
  }

  /** The text of an element in reading order, with what separates its children. */
  function Reading(e: Element): seq<string>
    decreases e, 1
  {
    if IsSilent(e) then []
    else if IsLeaf(e) then TextOf(OwnText(e))
    else ReadingAll(Children(e), TextOf(Separator(e)))
  }

  function ReadingAll(es: seq<Element>, separator: seq<string>): seq<string>
    decreases es, 0
  {
    if es == [] then []
    else Reading(es[0]) + (if |es| > 1 then separator else []) + ReadingAll(es[1..], separator)
  }

  function TextsIn(placed: seq<Placed>): seq<string> {
    if placed == [] then []
    else (if placed[0].tag.Chars? then [placed[0].tag.text] else []) + TextsIn(placed[1..])
  }

  lemma {:induction false} TextConcat(s: seq<Tag>, t: seq<Tag>)
    ensures TextOf(s + t) == TextOf(s) + TextOf(t)
  {
    if s == [] {
      assert s + t == t;
    } else {
      assert (s + t)[1..] == s[1..] + t;
      TextConcat(s[1..], t);
    }
  }

  lemma {:induction false} TextsConcat(s: seq<Placed>, t: seq<Placed>)
    ensures TextsIn(s + t) == TextsIn(s) + TextsIn(t)
  {
    if s == [] {
      assert s + t == t;
    } else {
      assert (s + t)[1..] == s[1..] + t;
      TextsConcat(s[1..], t);
    }
  }

  /** Text is placed wherever it is read. */
  lemma {:induction false} TextOfTrace(stack: seq<string>, tags: seq<Tag>)
    ensures TextOf(tags) == TextsIn(Trace(stack, tags))
    decreases tags
  {
    if tags != [] {
      var rest := tags[1..];
      match tags[0]
      case Open(name) =>
        TextOfTrace(stack + [name], rest);
        TextsConcat([Placed(stack, tags[0])], Trace(stack + [name], rest));
      case Close(_) => TextOfTrace(if stack == [] then [] else stack[..|stack| - 1], rest);
      case _ =>
        TextOfTrace(stack, rest);
        TextsConcat([Placed(stack, tags[0])], Trace(stack, rest));
    }
  }

  lemma {:induction false} TextsOfNames(stack: seq<string>, names: seq<string>)
    ensures TextsIn(Nested(stack, names)) == []
    decreases names
  {
    if names != [] {
      TextsOfNames(stack + [names[0]], names[1..]);
      TextsConcat([Placed(stack, Open(names[0]))], Nested(stack + [names[0]], names[1..]));
    }
  }

  lemma {:induction false} TextsAt(stack: seq<string>, tags: seq<Tag>)
    ensures TextsIn(AllAt(stack, tags)) == TextOf(tags)
  {
    if tags != [] {
      TextsAt(stack, tags[1..]);
      TextsConcat([Placed(stack, tags[0])], AllAt(stack, tags[1..]));
    }
  }

  lemma {:induction false} NoText(tags: seq<Tag>)
    requires forall i | 0 <= i < |tags| :: !tags[i].Chars?
    ensures TextOf(tags) == []
  {
    if tags != [] {
      NoText(tags[1..]);
    }
  }

  lemma {:induction false} NoTextsIn(placed: seq<Placed>)
    requires forall i | 0 <= i < |placed| :: !placed[i].tag.Chars?
    ensures TextsIn(placed) == []
  {
    if placed != [] {
      NoTextsIn(placed[1..]);
    }
  }

  lemma {:induction false} TextsOfContentAll(stack: seq<string>, es: seq<Element>, context: Context,
                                             separator: seq<Tag>)
    ensures TextsIn(ContentAll(stack, es, context, separator)) == ReadingAll(es, TextOf(separator))
    decreases es, 0
  {
    if es != [] {
      var first, next := Content(stack, es[0], context), Marked(context, HoldsParagraph(es[0]));
      var gap, rest := if |es| > 1 then AllAt(stack, separator) else [], ContentAll(stack, es[1..], next, separator);
      TextsOfContent(stack, es[0], context);
      TextsOfContentAll(stack, es[1..], next, separator);
      TextsAt(stack, separator);
      TextsConcat(first, gap);
      TextsConcat(first + gap, rest);
    }
  }

  lemma {:induction false} TextsOfFrame(stack: seq<string>, names: seq<string>, es: seq<Element>, context: Context,
                                        separator: seq<Tag>)
    ensures TextsIn(Nested(stack, names) + ContentAll(stack + names, es, context, separator)) ==
            ReadingAll(es, TextOf(separator))
    decreases es, 1
  {
    TextsOfNames(stack, names);
    TextsOfContentAll(stack + names, es, context, separator);
    TextsConcat(Nested(stack, names), ContentAll(stack + names, es, context, separator));
  }

  lemma TextsOfLeaf(stack: seq<string>, e: Element, context: Context)
    requires IsLeaf(e)
    ensures TextsIn(Content(stack, e, context)) == Reading(e)
  {
    var names := Names(e, context == Some(true));
    TextsOfNames(stack, names);
    TextsAt(stack + names, OwnText(e));
    TextsConcat(Nested(stack, names), AllAt(stack + names, OwnText(e)));
  }

  lemma {:induction false} TextsOfAttachment(stack: seq<string>, content: seq<Element>, context: Context)
    ensures TextsIn(Content(stack, EmbeddedAttachment(content), context)) == ReadingAll(content, [])
    decreases content, 2
  {
    var media, names := stack + ["inlinemediaobject"], ["textobject", "phrase"];
    NoTextsIn(Image(stack));
    ContentOfAttachment(stack, content, context);
    if content != [] {
      TextsOfFrame(media, names, content, context, []);
      TextsConcat(Image(stack), Nested(media, names) + ContentAll(media + names, content, context, []));
    }
  }

  lemma {:induction false} TextsOfGroup(group: seq<string>, columns: nat, rows: seq<Element>, context: Context)
    ensures TextsIn(AllAt(group, Repeated(Empty("colspec"), columns))
                    + [Placed(group, Open("tbody"))] + ContentAll(group + ["tbody"], rows, context, [])) ==
            ReadingAll(rows, [])
    decreases rows, 2
  {
    var colspecs := Repeated(Empty("colspec"), columns);
    var head, body := AllAt(group, colspecs), ContentAll(group + ["tbody"], rows, context, []);
    NoText(colspecs);
    TextsAt(group, colspecs);
    NoTextsIn([Placed(group, Open("tbody"))]);
    TextsOfContentAll(group + ["tbody"], rows, context, []);
    TextsConcat(head, [Placed(group, Open("tbody"))]);
    TextsConcat(head + [Placed(group, Open("tbody"))], body);
  }

  lemma {:induction false} TextsOfTable(stack: seq<string>, columns: nat, rows: seq<Element>, context: Context)
    ensures TextsIn(Content(stack, Table(columns, rows), context)) == ReadingAll(rows, [])
    decreases rows, 3
  {
    var names := ["informaltable", "tgroup"];
    var group := stack + names;
    TextsOfNames(stack, names);
    TextsOfGroup(group, columns, rows, context);
    ContentOfTable(stack, columns, rows, context);
    TextsConcat(Nested(stack, names),
                AllAt(group, Repeated(Empty("colspec"), columns))
                + [Placed(group, Open("tbody"))] + ContentAll(group + ["tbody"], rows, context, []));
  }

  lemma ReadingOfTable(columns: nat, rows: seq<Element>)
    ensures Reading(Table(columns, rows)) == ReadingAll(rows, [])
  {
  }

  lemma ReadingOfAttachment(content: seq<Element>)
    ensures Reading(EmbeddedAttachment(content)) == ReadingAll(content, [])
  {
  }

  lemma {:induction false} TextsOfSpecial(stack: seq<string>, e: Element, context: Context)
    requires e.Table? || e.EmbeddedAttachment?
    ensures TextsIn(Content(stack, e, context)) == Reading(e)
    decreases e, 0
  {
    if e.Table? {
      TextsOfTable(stack, e.columns, e.rows, context);
      ReadingOfTable(e.columns, e.rows);
    } else {
      TextsOfAttachment(stack, e.content, context);
      ReadingOfAttachment(e.content);
    }
  }

  lemma {:induction false} TextsOfContent(stack: seq<string>, e: Element, context: Context)
    ensures TextsIn(Content(stack, e, context)) == Reading(e)
    decreases e, 1
  {
    if IsLeaf(e) {
      TextsOfLeaf(stack, e, context);
    } else if IsSilent(e) || e == TableItem([]) {
      TextsOfNothing(stack, e, context);
    } else if e.Table? || e.EmbeddedAttachment? {
      TextsOfSpecial(stack, e, context);
    } else {
      TextsOfWrapped(stack, e, context);
    }
  }

  lemma TextsOfNothing(stack: seq<string>, e: Element, context: Context)
    requires IsSilent(e) || e == TableItem([])
    ensures TextsIn(Content(stack, e, context)) == Reading(e)
  {
    NoTextsIn(Content(stack, e, context));
  }

  lemma {:induction false} TextsOfWrapped(stack: seq<string>, e: Element, context: Context)
    requires IsFrame(e)
    ensures TextsIn(Content(stack, e, context)) == Reading(e)
    decreases e, 0
  {
    ContentOfFrame(stack, e, context);
    TextsOfFrame(stack, Names(e, context == Some(true)), Children(e), Inside(e, context), Separator(e));
  }

  /** The text of the first n elements in reading order. */
  function DocumentTexts(es: seq<Element>, n: nat): seq<string>
    requires n <= |es|
  {
    if n == 0 then [] else DocumentTexts(es, n - 1) + Reading(es[n - 1])
  }

  lemma TextOfRender(e: Element, context: Context)
    ensures TextOf(Render(e, context).0) == Reading(e)
  {
    TextOfTrace([], Render(e, context).0);
    RenderTrace([], e, context);
    TextsOfContent([], e, context);
  }

  lemma {:induction false} NoTextInEnds(n: nat)
    ensures TextOf(Ends(n)) == []
  {
    if n > 0 {
      NoTextInEnds(n - 1);
      TextConcat(Ends(n - 1), [Close("section")]);
    }
  }

  lemma NoTextInOpening(es: seq<Element>, n: nat)
    requires n < |es|
    ensures TextOf(Opening(es, n)) == []
  {
    if es[n].Heading? {
      var k := FirstToClose(es, n);
      HeadingStep(es, n, k);
      NoTextInEnds(|OpenBefore(es, n)| - k);
      TextConcat(Ends(|OpenBefore(es, n)| - k), [Open("section")]);
    }
  }

  lemma TextThree(a: seq<Tag>, b: seq<Tag>, c: seq<Tag>)
    ensures TextOf(a + b + c) == TextOf(a) + TextOf(b) + TextOf(c)
  {
    TextConcat(a, b);
    TextConcat(a + b, c);
  }

  lemma StreamTextStep(es: seq<Element>, n: nat)
    requires n < |es|
    ensures TextOf(Stream(es, n + 1)) == TextOf(Stream(es, n)) + Reading(es[n])
  {
    var context := ContextAt(es, n);
    StreamStep(es, n);
    NoTextInOpening(es, n);
    TextOfRender(es[n], context);
    TextThree(Stream(es, n), Opening(es, n), Render(es[n], context).0);
  }

  lemma StreamText(es: seq<Element>, n: nat)
    requires n <= |es|
    ensures TextOf(Stream(es, n)) == DocumentTexts(es, n)
  {
    NoneOpen(es);
    for k := 0 to n
      invariant TextOf(Stream(es, k)) == DocumentTexts(es, k)
    {
      StreamTextStep(es, k);
    }
  }

  /** No text is lost, added or moved: the text of a document is that of its elements in reading
      order. */
  lemma DocumentText(es: seq<Element>)
    ensures TextOf(Document(es)) == DocumentTexts(es, |es|)
  {
    StreamText(es, |es|);
    NoTextInEnds(|OpenBefore(es, |es|)|);
    TextConcat(Stream(es, |es|), Ends(|OpenBefore(es, |es|)|));
  }

  // ---------- The place of everything in a document ----------

  /** What the first n elements place: a heading starts a section inside those still open, and each
      element stands in the sections open after it. */
  function DocumentContent(es: seq<Element>, n: nat): seq<Placed>
    requires n <= |es|
  {
    if n == 0 then []
    else
      var e, depth := es[n - 1], |OpenBefore(es, n)|;
      DocumentContent(es, n - 1)
      + (if e.Heading? && depth > 0 then [Placed(Sections(depth - 1), Open("section"))] else [])
      + Content(Sections(depth), e, Some(false))
  }

  lemma {:induction false} TraceEnds(depth: nat, n: nat)
    requires n <= depth
    ensures Trace(Sections(depth), Ends(n)) == []
    decreases n
  {
    if n > 0 {
      TraceEnds(depth, n - 1);
      ReadEnds(depth, n - 1);
      TraceConcat(Sections(depth), Ends(n - 1), [Close("section")]);
      TraceOne(Sections(depth - n + 1), Close("section"));
    }
  }

  lemma TraceThenOne(stack: seq<string>, tags: seq<Tag>, after: seq<string>, tag: Tag)
    requires Leads(stack, tags, after) && !tag.Close?
    ensures Trace(stack, tags + [tag]) == Trace(stack, tags) + [Placed(after, tag)]
  {
    TraceConcat(stack, tags, [tag]);
    TraceOne(after, tag);
  }

  lemma TraceSectionStart(open: nat, n: nat)
    requires n <= open
    ensures Trace(Sections(open), Ends(n) + [Open("section")]) == [Placed(Sections(open - n), Open("section"))]
  {
    TraceEnds(open, n);
    ReadEnds(open, n);
    TraceThenOne(Sections(open), Ends(n), Sections(open - n), Open("section"));
  }

  lemma TraceOpening(es: seq<Element>, n: nat)
    requires n < |es|
    ensures var depth := |OpenBefore(es, n + 1)|;
            && (es[n].Heading? ==> depth > 0)
            && Trace(OpenNames(es, n), Opening(es, n)) ==
               if es[n].Heading? then [Placed(Sections(depth - 1), Open("section"))] else []
  {
    if es[n].Heading? {
      var k := FirstToClose(es, n);
      var open := |OpenBefore(es, n)|;
      HeadingStep(es, n, k);
      TraceSectionStart(open, open - k);
    }
  }

  lemma {:induction false} ContextAtTop(es: seq<Element>, n: nat)
    requires n <= |es|
    ensures ContextAt(es, n) == Some(false)
  {
    if n > 0 {
      ContextAtTop(es, n - 1);
      ContextAfter(es[n - 1], Some(false));
    }
  }

  lemma TraceThree(first: seq<string>, second: seq<string>, before: seq<Tag>, opening: seq<Tag>, own: seq<Tag>)
    requires Leads([], before, first) && Leads(first, opening, second) && IsBalanced(own)
    ensures Trace([], before + opening + own) == Trace([], before) + Trace(first, opening) + Trace(second, own)
  {
    TraceConcat([], before, opening);
    ReadConcat([], before, opening);
    TraceConcat([], before + opening, own);
  }

  lemma StreamTraceStep(es: seq<Element>, n: nat)
    requires n < |es|
    requires Trace([], Stream(es, n)) == DocumentContent(es, n)
    ensures Trace([], Stream(es, n + 1)) == DocumentContent(es, n + 1)
  {
    var opening, own := Opening(es, n), Render(es[n], Some(false)).0;
    ContextAtTop(es, n);
    StreamStep(es, n);
    StreamLeavesOpen(es, n);
    ReadOpening(es, n);
    TraceOpening(es, n);
    RenderIsBalanced(es[n], Some(false));
    RenderTrace(OpenNames(es, n + 1), es[n], Some(false));
    TraceThree(OpenNames(es, n), OpenNames(es, n + 1), Stream(es, n), opening, own);
  }

  lemma StreamTrace(es: seq<Element>, n: nat)
    requires n <= |es|
    ensures Trace([], Stream(es, n)) == DocumentContent(es, n)
  {
    NoneOpen(es);
    for k := 0 to n
      invariant Trace([], Stream(es, k)) == DocumentContent(es, k)
    {
      StreamTraceStep(es, k);
    }
  }

  /** Everything in a document stands where it is to stand. */
  lemma DocumentPlaces(es: seq<Element>)
    ensures Trace([], Document(es)) == DocumentContent(es, |es|)
  {
    var open := |OpenBefore(es, |es|)|;
    StreamTrace(es, |es|);
    StreamLeavesOpen(es, |es|);
    TraceEnds(open, open);
    TraceConcat([], Stream(es, |es|), Ends(open));
  }
}
