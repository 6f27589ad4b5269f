/** From indented wiki list lines to a tree of lists (doc/scripts/wikiparser.py).

    The content of a line is opaque.  A list and an item carry the indent and the kind of the line
    they come from, so that the tree can be compared with its input. */
module WikiList {
  import opened Wrappers

  datatype Kind = Plain | Bulleted | Numbered | Spaced

  datatype Line = Line(kind: Kind, indent: nat, content: string)

  datatype List = List(kind: Kind, indent: nat, items: seq<Item>)

  datatype Item = Item(kind: Kind, content: string, nested: seq<List>)

  // ---------- The lines of a tree, in reading order ----------

  function LinesOfItems(indent: nat, items: seq<Item>): seq<Line>
    decreases items
  {
    if items == [] then []
    else LinesOfItems(indent, items[..|items| - 1]) + LinesOfItem(indent, items[|items| - 1])
  }

  function LinesOfItem(indent: nat, item: Item): seq<Line>
    decreases item
  {
    [Line(item.kind, indent, item.content)] + LinesOfLists(item.nested)
  }

  function LinesOfLists(lists: seq<List>): seq<Line>
    decreases lists
  {
    if lists == [] then []
    else LinesOfLists(lists[..|lists| - 1]) + Lines(lists[|lists| - 1])
  }

  function Lines(list: List): seq<Line>
    decreases list
  {
    LinesOfItems(list.indent, list.items)
  }

  // ---------- Trees that follow the indentation ----------

  /** A list has the kind of its first item; what is nested in an item is indented further, and a
      list following another in the same item is indented less than that one. */
  predicate WellFormed(list: List)
    decreases list
  {
    && list.items != [] && list.items[0].kind == list.kind
    && forall i | 0 <= i < |list.items| :: WellNested(list.indent, list.items[i])
  }

  predicate WellNested(indent: nat, item: Item)
    decreases item
  {
    && (forall i | 0 <= i < |item.nested| :: item.nested[i].indent > indent && WellFormed(item.nested[i]))
    && (forall i | 0 < i < |item.nested| :: item.nested[i].indent < item.nested[i - 1].indent)
  }

  predicate StopsBelow(rest: seq<Line>, indent: int) {
    rest == [] || rest[0].indent < indent
  }

  /** The list and the remaining lines are what the data says. */
  predicate IsParse(data: seq<Line>, list: List, rest: seq<Line>) {
    WellFormed(list) && Lines(list) + rest == data && StopsBelow(rest, list.indent)
  }

  // ---------- The parser ----------

  lemma AddItem(indent: nat, items: seq<Item>, item: Item)
    ensures LinesOfItems(indent, items + [item]) == LinesOfItems(indent, items) + LinesOfItem(indent, item)
  {
    assert (items + [item])[..|items|] == items;
  }

  function Nest(items: seq<Item>, list: List): seq<Item>
    requires items != []
  {
    var last := items[|items| - 1];
    items[..|items| - 1] + [last.(nested := last.nested + [list])]
  }

  lemma AddNested(indent: nat, items: seq<Item>, list: List)
    requires items != []
    ensures LinesOfItems(indent, Nest(items, list)) == LinesOfItems(indent, items) + Lines(list)
  {
    var front, last := items[..|items| - 1], items[|items| - 1];
    AddItem(indent, front, last.(nested := last.nested + [list]));
    assert (last.nested + [list])[..|last.nested|] == last.nested;
  }

  lemma NestedLines(indent: nat, items: seq<Item>, list: List, rest: seq<Line>)
    requires items != []
    ensures LinesOfItems(indent, Nest(items, list)) + rest == LinesOfItems(indent, items) + (Lines(list) + rest)
  {
    AddNested(indent, items, list);
    Regroup(LinesOfItems(indent, items), Lines(list), rest);
  }

  /** What the loop keeps: the items so far are well nested, and the data left does not continue
      the last nested list. */
  predicate Growing(indent: nat, items: seq<Item>, data: seq<Line>) {
    && (forall i | 0 <= i < |items| :: WellNested(indent, items[i]))
    && (items != [] && items[|items| - 1].nested != [] ==>
          var nested := items[|items| - 1].nested;
          StopsBelow(data, nested[|nested| - 1].indent))
  }

  lemma NestKeepsGrowing(indent: nat, items: seq<Item>, data: seq<Line>, list: List, rest: seq<Line>)
    requires items != [] && Growing(indent, items, data)
    requires data != [] && list.indent == data[0].indent > indent && IsParse(data, list, rest)
    ensures Growing(indent, Nest(items, list), rest)
  {
    var last := items[|items| - 1];
    assert WellNested(indent, last);
    assert WellNested(indent, last.(nested := last.nested + [list]));
  }

  lemma TakeItem(current: nat, items: seq<Item>, data: seq<Line>, all: seq<Line>)
    requires LinesOfItems(current, items) + data == all && Growing(current, items, data)
    requires data != [] && data[0].indent == current
    ensures var more := items + [Item(data[0].kind, data[0].content, [])];
            LinesOfItems(current, more) + data[1..] == all && Growing(current, more, data[1..])
  {
    var item := Item(data[0].kind, data[0].content, []);
    AddItem(current, items, item);
    assert LinesOfItem(current, item) == [data[0]];
    assert data == [data[0]] + data[1..];
  }

  lemma TakeNested(current: nat, items: seq<Item>, data: seq<Line>, all: seq<Line>, list: List, rest: seq<Line>)
    requires LinesOfItems(current, items) + data == all && Growing(current, items, data)
    requires items != [] && data != [] && list.indent == data[0].indent > current && IsParse(data, list, rest)
    ensures LinesOfItems(current, Nest(items, list)) + rest == all && Growing(current, Nest(items, list), rest)
  {
    NestKeepsGrowing(current, items, data, list, rest);
    NestedLines(current, items, list, rest);
  }

  lemma NothingBelowNothingLeft(data: seq<Line>, list: List, rest: seq<Line>)
    requires IsParse(data, list, rest) && forall i | 0 <= i < |data| :: data[i].indent >= list.indent
    ensures rest == []
  {
    var k := |data| - |rest|;
    assert data[k..] == rest;
  }

  /** Parse one list; lines are taken from the front of the data.  None stands for no data. */
  method ParseList(listData: seq<Line>) returns (parsed: Option<List>, rest: seq<Line>)
    ensures parsed.None? <==> listData == []
    ensures parsed.None? ==> rest == []
    ensures parsed.Some? ==> IsParse(listData, parsed.value, rest)
    ensures parsed.Some? ==> parsed.value.kind == listData[0].kind && parsed.value.indent == listData[0].indent
    ensures parsed.Some? && (forall i | 0 <= i < |listData| :: listData[i].indent >= listData[0].indent) ==> rest == []
    ensures |rest| < |listData| || listData == []
    decreases |listData|
  {
    if listData == [] {
      return None, [];
    }
    var kind, current := listData[0].kind, listData[0].indent;
    var items: seq<Item> := [];
    var data := listData;
    while data != []
      invariant LinesOfItems(current, items) + data == listData
      invariant items == [] ==> data == listData
      invariant items != [] ==> items[0].kind == kind && |data| < |listData|
      invariant Growing(current, items, data)
      decreases |data|
    {
      if data[0].indent > current {
        var nested, left := ParseList(data);
        TakeNested(current, items, data, listData, nested.value, left);
        items, data := Nest(items, nested.value), left;
      } else if data[0].indent < current {
        break;
      } else {
        TakeItem(current, items, data, listData);
        items, data := items + [Item(data[0].kind, data[0].content, [])], data[1..];
      }
    }
    parsed, rest := Some(List(kind, current, items)), data;
    if forall i | 0 <= i < |listData| :: listData[i].indent >= current {
      NothingBelowNothingLeft(listData, parsed.value, rest);
    }
  }

  // ---------- The tree is determined by the data ----------

  lemma {:induction false} LinesStart(list: List)
    requires WellFormed(list)
    ensures Lines(list) != [] && Lines(list)[0] == Line(list.kind, list.indent, list.items[0].content)
  {
    ItemsStart(list.indent, list.items);
  }

  lemma {:induction false} ItemsStart(indent: nat, items: seq<Item>)
    requires items != []
    ensures LinesOfItems(indent, items) != []
    ensures LinesOfItems(indent, items)[0] == Line(items[0].kind, indent, items[0].content)
  {
    if |items| > 1 {
      ItemsStart(indent, items[..|items| - 1]);
    }
  }

  lemma {:induction false} ItemsFirst(indent: nat, items: seq<Item>)
    requires items != []
    ensures LinesOfItems(indent, items) == LinesOfItem(indent, items[0]) + LinesOfItems(indent, items[1..])
  {
    if |items| > 1 {
      var last := |items| - 1;
      ItemsFirst(indent, items[..last]);
      assert items[..last][1..] == items[1..][..last - 1];
    }
  }

  lemma {:induction false} ListsFirst(lists: seq<List>)
    requires lists != []
    ensures LinesOfLists(lists) == Lines(lists[0]) + LinesOfLists(lists[1..])
  {
    if |lists| > 1 {
      var last := |lists| - 1;
      ListsFirst(lists[..last]);
      assert lists[..last][1..] == lists[1..][..last - 1];
    }
  }

  predicate Decreasing(bound: nat, lists: seq<List>) {
    && (forall i | 0 <= i < |lists| :: lists[i].indent > bound && WellFormed(lists[i]))
    && (forall i | 0 < i < |lists| :: lists[i].indent < lists[i - 1].indent)
  }

  lemma SameHead<T>(x: T, s: seq<T>, y: T, t: seq<T>)
    requires [x] + s == [y] + t
    ensures x == y && s == t
  {
    assert x == ([x] + s)[0] && y == ([y] + t)[0];
    assert s == ([x] + s)[1..] && t == ([y] + t)[1..];
  }

  /** The lines of an item and of those after it, split after the first line. */
  lemma ItemsHead(indent: nat, items: seq<Item>, rest: seq<Line>) returns (tail: seq<Line>)
    requires items != [] && StopsBelow(rest, indent)
    ensures tail == LinesOfItems(indent, items[1..]) + rest && StopsBelow(tail, indent + 1)
    ensures LinesOfItems(indent, items) + rest ==
            [Line(items[0].kind, indent, items[0].content)] + (LinesOfLists(items[0].nested) + tail)
  {
    tail := LinesOfItems(indent, items[1..]) + rest;
    ItemsFirst(indent, items);
    if items[1..] != [] {
      ItemsStart(indent, items[1..]);
    }
  }

  /** The lines of a list and of those after it. */
  lemma ListsHead(bound: nat, lists: seq<List>, rest: seq<Line>) returns (tail: seq<Line>)
    requires lists != [] && Decreasing(bound, lists) && StopsBelow(rest, bound + 1)
    ensures tail == LinesOfLists(lists[1..]) + rest && StopsBelow(tail, lists[0].indent)
    ensures LinesOfLists(lists) + rest == Lines(lists[0]) + tail
    ensures Lines(lists[0]) != []
    ensures Lines(lists[0])[0] == Line(lists[0].kind, lists[0].indent, lists[0].items[0].content)
  {
    tail := LinesOfLists(lists[1..]) + rest;
    ListsFirst(lists);
    LinesStart(lists[0]);
    if lists[1..] != [] {
      ListsFirst(lists[1..]);
      LinesStart(lists[1]);
    }
  }

  /** Items cannot be taken for lines that stop below them. */
  lemma ItemsAreNotBelow(indent: nat, items: seq<Item>, rest: seq<Line>, other: seq<Line>)
    requires StopsBelow(other, indent)
    requires LinesOfItems(indent, items) + rest == other
    ensures items == []
  {
    if items != [] {
      ItemsStart(indent, items);
    }
  }

  lemma ListsAreNotBelow(bound: nat, lists: seq<List>, rest: seq<Line>, other: seq<Line>)
    requires Decreasing(bound, lists) && StopsBelow(other, bound + 1)
    requires LinesOfLists(lists) + rest == other
    ensures lists == []
  {
    if lists != [] {
      ListsFirst(lists);
      LinesStart(lists[0]);
    }
  }

  lemma NoLines(rest: seq<Line>)
    ensures [] + rest == rest
  {
  }

  lemma {:induction false} SameItems(indent: nat, a: seq<Item>, b: seq<Item>, restA: seq<Line>, restB: seq<Line>)
    requires forall i | 0 <= i < |a| :: WellNested(indent, a[i])
    requires forall i | 0 <= i < |b| :: WellNested(indent, b[i])
    requires StopsBelow(restA, indent) && StopsBelow(restB, indent)
    requires LinesOfItems(indent, a) + restA == LinesOfItems(indent, b) + restB
    ensures a == b && restA == restB
    decreases a
  {
    NoLines(restA);
    NoLines(restB);
    if a == [] {
      ItemsAreNotBelow(indent, b, restB, restA);
    } else if b == [] {
      ItemsAreNotBelow(indent, a, restA, restB);
    } else {
      var tailA := ItemsHead(indent, a, restA);
      var tailB := ItemsHead(indent, b, restB);
      SameItem(indent, a[0], b[0], tailA, tailB);
      SameItems(indent, a[1..], b[1..], restA, restB);
      assert a == [a[0]] + a[1..] && b == [b[0]] + b[1..];
    }
  }

  lemma {:induction false} SameItem(indent: nat, a: Item, b: Item, restA: seq<Line>, restB: seq<Line>)
    requires WellNested(indent, a) && WellNested(indent, b)
    requires StopsBelow(restA, indent + 1) && StopsBelow(restB, indent + 1)
    requires [Line(a.kind, indent, a.content)] + (LinesOfLists(a.nested) + restA) ==
             [Line(b.kind, indent, b.content)] + (LinesOfLists(b.nested) + restB)
    ensures a == b && restA == restB
    decreases a
  {
    SameHead(Line(a.kind, indent, a.content), LinesOfLists(a.nested) + restA,
             Line(b.kind, indent, b.content), LinesOfLists(b.nested) + restB);
    NestedDecreases(indent, a);
    NestedDecreases(indent, b);
    SameLists(indent, a.nested, b.nested, restA, restB);
  }

  lemma NestedDecreases(indent: nat, item: Item)
    requires WellNested(indent, item)
    ensures Decreasing(indent, item.nested)
  {
  }

  lemma DecreasingParts(bound: nat, lists: seq<List>)
    requires lists != [] && Decreasing(bound, lists)
    ensures Decreasing(bound, lists[1..])
    ensures forall i | 0 <= i < |lists[0].items| :: WellNested(lists[0].indent, lists[0].items[i])
    ensures lists[0].items != [] && lists[0].items[0].kind == lists[0].kind
  {
    assert WellFormed(lists[0]);
  }

  lemma {:induction false} SameLists(bound: nat, a: seq<List>, b: seq<List>, restA: seq<Line>, restB: seq<Line>)
    requires Decreasing(bound, a) && Decreasing(bound, b)
    requires StopsBelow(restA, bound + 1) && StopsBelow(restB, bound + 1)
    requires LinesOfLists(a) + restA == LinesOfLists(b) + restB
    ensures a == b && restA == restB
    decreases a
  {
    NoLines(restA);
    NoLines(restB);
    if a == [] {
      ListsAreNotBelow(bound, b, restB, restA);
    } else if b == [] {
      ListsAreNotBelow(bound, a, restA, restB);
    } else {
      var tailA := ListsHead(bound, a, restA);
      var tailB := ListsHead(bound, b, restB);
      DecreasingParts(bound, a);
      DecreasingParts(bound, b);
      SameList(a[0], b[0], tailA, tailB);
      SameLists(bound, a[1..], b[1..], restA, restB);
      assert a == [a[0]] + a[1..] && b == [b[0]] + b[1..];
    }
  }

  lemma {:induction false} SameList(a: List, b: List, restA: seq<Line>, restB: seq<Line>)
    requires WellFormed(a) && WellFormed(b)
    requires StopsBelow(restA, a.indent) && StopsBelow(restB, b.indent)
    requires Lines(a) + restA == Lines(b) + restB
    ensures a == b && restA == restB
    decreases a
  {
    LinesStart(a);
    LinesStart(b);
    assert Lines(a)[0] == (Lines(a) + restA)[0] == (Lines(b) + restB)[0] == Lines(b)[0];
    SameItems(a.indent, a.items, b.items, restA, restB);
  }

  /** There is only one tree and one remainder for given data: the parser has no choice. */
  lemma ParseIsUnique(data: seq<Line>, a: List, restA: seq<Line>, b: List, restB: seq<Line>)
    requires IsParse(data, a, restA) && IsParse(data, b, restB)
    ensures a == b && restA == restB
  {
    SameList(a, b, restA, restB);
  }
}
