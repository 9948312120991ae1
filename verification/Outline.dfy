/** The picture the printers are meant to draw, one line per line of text with its depth, and
    exactly when the code draws it. */
module Outline {
  import opened Lines
  import opened Printer
  import opened Indentation

  datatype Line = Line(depth: nat, content: string)

  function Spaces(n: nat): string {
    if n == 0 then "" else "  " + Spaces(n - 1)
  }

  function Render(l: Line): string {
    Spaces(l.depth) + l.content
  }

  function Rendered(ls: seq<Line>): (r: seq<string>)
    ensures |r| == |ls|
  {
    seq(|ls|, i requires 0 <= i < |ls| => Render(ls[i]))
  }

  /** Text lines standing at one depth. */
  function At(d: nat, ls: seq<string>): (r: seq<Line>)
    ensures |r| == |ls|
  {
    seq(|ls|, i requires 0 <= i < |ls| => Line(d, ls[i]))
  }

  function Comma(ls: seq<Line>): (r: seq<Line>)
    requires ls != []
    ensures |r| == |ls|
  {
    var last := ls[|ls| - 1];
    ls[..|ls| - 1] + [last.(content := last.content + ",")]
  }

  /** The lines of `t` when it stands at depth `d`. */
  function Outlined(t: Tree, d: nat): (ls: seq<Line>)
    ensures ls != []
    decreases t, 0
  {
    match t
    case Leaf(text) => At(d, LinesOf(text))
    case Array(_, items) =>
      [Line(d, "[")] + (if items == [] then [Line(d, ",")] else OutlinedItems(items, d + 1)) + [Line(d, "]")]
    case Bundle(text, entries) =>
      At(d, LinesOf(text + ":{  ")) + OutlinedEntries(entries, d + 1) + [Line(d, "}")]
  }

  function OutlinedItems(items: seq<Tree>, d: nat): seq<Line>
    decreases items
  {
    if items == [] then [] else Comma(Outlined(items[0], d)) + OutlinedItems(items[1..], d)
  }

  function OutlinedEntries(entries: seq<Entry>, d: nat): seq<Line>
    decreases entries
  {
    if entries == [] then []
    else
      var last := entries[|entries| - 1];
      OutlinedEntries(entries[..|entries| - 1], d) + OutlinedEntry(last.key, last.value, d)
  }

  function OutlinedEntry(key: string, value: Tree, d: nat): seq<Line>
    decreases value, 1
  {
    match value
    case Leaf(text) => At(d, LinesOf(key + ": " + text + ","))
    case Array(_, items) => At(d, LinesOf(key + ": [")) + OutlinedElements(items, d + 1) + [Line(d, "],")]
    case Bundle(text, entries) =>
      At(d, LinesOf(key + ": " + text + ":{  ")) + OutlinedEntries(entries, d + 1) + [Line(d, "},")]
  }

  function OutlinedElements(items: seq<Tree>, d: nat): seq<Line> {
    if items == [] then []
    else OutlinedElements(items[..|items| - 1], d) + At(d, LinesOf(items[|items| - 1].text + ","))
  }

  // ----- when the code draws the outline

  /** A line survives `d` re-indentations: only blank lines are in danger, and an empty one
      only from the second on. */
  predicate LineDrawable(l: string, d: nat) {
    !Blank(l) || d == 0 || (d == 1 && l == "")
  }

  predicate AllDrawable(ls: seq<string>, d: nat) {
    forall i | 0 <= i < |ls| :: LineDrawable(ls[i], d)
  }

  /** No text line is blank where it is re-indented `d` times (a leaf's last line only once,
      as a comma follows), and the elements of an array in a bundle are on one line. */
  predicate Drawable(t: Tree, d: nat)
    decreases t, 0
  {
    match t
    case Leaf(text) => AllDrawable(LinesOf(text), d)
    case Array(_, items) => DrawableItems(items, d)
    case Bundle(text, entries) => AllDrawable(LinesOf(text + ":{  "), d) && DrawableEntries(entries, d + 1)
  }

  predicate DrawableItems(items: seq<Tree>, d: nat)
    decreases items
  {
    items == [] || (DrawableItem(items[0], d) && DrawableItems(items[1..], d))
  }

  predicate DrawableItem(t: Tree, d: nat)
    decreases t, 1
  {
    if t.Leaf? then
      var ls := LinesOf(t.text);
      AllDrawable(ls[..|ls| - 1], d + 1) && LineDrawable(ls[|ls| - 1], 1)
    else Drawable(t, d + 1)
  }

  predicate DrawableEntries(entries: seq<Entry>, d: nat)
    decreases entries
  {
    entries == [] ||
    (DrawableEntries(entries[..|entries| - 1], d) &&
     DrawableEntry(entries[|entries| - 1].key, entries[|entries| - 1].value, d))
  }

  predicate DrawableEntry(key: string, value: Tree, d: nat)
    decreases value, 1
  {
    match value
    case Leaf(text) => AllDrawable(LinesOf(key + ": " + text + ","), d)
    case Array(_, items) => AllDrawable(LinesOf(key + ": ["), d) && OneLineElements(items)
    case Bundle(text, entries) =>
      AllDrawable(LinesOf(key + ": " + text + ":{  "), d) && DrawableEntries(entries, d + 1)
  }

  predicate OneLineElements(items: seq<Tree>) {
    items == [] || (OneLineElements(items[..|items| - 1]) && OneLine(items[|items| - 1].text))
  }

  // ----- a line under repeated re-indentation

  function IndentBy(d: nat, l: string): string
    decreases d
  {
    if d == 0 then l else IndentBy(d - 1, IndentLine(l))
  }

  function IndentAll(d: nat, ls: seq<string>): (r: seq<string>)
    ensures |r| == |ls|
  {
    seq(|ls|, i requires 0 <= i < |ls| => IndentBy(d, ls[i]))
  }

  lemma {:induction false} SpacesNext(d: nat)
    ensures Spaces(d) + "  " == Spaces(d + 1) && |Spaces(d)| == 2 * d
  {
    if d == 0 {
    } else {
      SpacesNext(d - 1);
      assert Spaces(d) + "  " == "  " + (Spaces(d - 1) + "  ");
    }
  }

  lemma IndentNonBlank(l: string)
    requires !Blank(l)
    ensures IndentLine(l) == "  " + l && !Blank("  " + l)
  {
    NotBlankInside("  ", l, "");
    assert "  " + l + "" == "  " + l;
  }

  lemma {:induction false} NonBlankIndent(d: nat, l: string)
    requires !Blank(l)
    ensures IndentBy(d, l) == Spaces(d) + l
    decreases d
  {
    hide Blank, IndentLine, Spaces;
    if d == 0 {
      NoSpaces(l);
    } else {
      var before := Spaces(d - 1);
      IndentNonBlank(l);
      NonBlankIndent(d - 1, "  " + l);
      SpacesNext(d - 1);
      assert before + ("  " + l) == before + "  " + l;
    }
  }

  lemma NoSpaces(l: string)
    ensures Spaces(0) + l == l
  {
  }

  lemma {:induction false} BlankIndent(d: nat, l: string)
    requires Blank(l) && d > 0
    ensures |IndentBy(d, l)| == if |l| < 2 then 2 else |l|
  {
    if d > 1 {
      BlankIndent(d - 1, IndentLine(l));
    }
  }

  lemma LineDrawnIff(d: nat, l: string)
    ensures IndentBy(d, l) == Spaces(d) + l <==> LineDrawable(l, d)
    ensures |IndentBy(d, l)| <= 2 * d + |l|
  {
    SpacesNext(d);
    if !Blank(l) {
      NonBlankIndent(d, l);
    } else if d > 0 {
      BlankIndent(d, l);
      if d == 1 && l == "" {
        assert IndentBy(1, l) == "  " && Spaces(1) + l == "  ";
      }
    }
  }

  lemma LinesDrawnIff(d: nat, ls: seq<string>)
    ensures IndentAll(d, ls) == Rendered(At(d, ls)) <==> AllDrawable(ls, d)
  {
    hide IndentBy, LineDrawable, Spaces;
    forall i | 0 <= i < |ls|
      ensures IndentAll(d, ls)[i] == Rendered(At(d, ls))[i] <==> LineDrawable(ls[i], d)
    {
      LineDrawnIff(d, ls[i]);
    }
  }

  lemma IndentAllConcat(d: nat, a: seq<string>, b: seq<string>)
    ensures IndentAll(d, a + b) == IndentAll(d, a) + IndentAll(d, b)
  {
  }

  lemma IndentAllNext(d: nat, ls: seq<string>)
    ensures IndentAll(d, IndentLines(ls)) == IndentAll(d + 1, ls)
  {
  }

  lemma RenderedConcat(a: seq<Line>, b: seq<Line>)
    ensures Rendered(a + b) == Rendered(a) + Rendered(b)
  {
  }

  lemma PlainLine(d: nat, l: string)
    requires !Blank(l)
    ensures IndentAll(d, [l]) == Rendered([Line(d, l)])
  {
    NonBlankIndent(d, l);
  }

  lemma LiteralsNotBlank()
    ensures !Blank("[") && !Blank("]") && !Blank("],") && !Blank(",") && !Blank("}") && !Blank("},")
  {
    assert !IsWhitespace("["[0]) && !IsWhitespace("]"[0]) && !IsWhitespace("],"[0]) && !IsWhitespace(","[0]);
    assert !IsWhitespace("}"[0]) && !IsWhitespace("},"[0]);
  }

  // ----- as many lines as the outline

  lemma {:induction false} SameLineCount(t: Tree, d: nat)
    ensures |PrintedLines(t)| == |Outlined(t, d)|
    decreases t, 0
  {
    hide IndentLines, LinesOf;
    match t
    case Leaf(_) =>
    case Array(_, items) => SameLineCountItems(items, d + 1);
    case Bundle(_, entries) => SameLineCountEntries(entries, d + 1);
  }

  lemma {:induction false} SameLineCountItems(items: seq<Tree>, d: nat)
    ensures items != [] ==> |BlockLines(items)| == |OutlinedItems(items, d)|
    decreases items
  {
    hide PrintedLines, Outlined;
    if items == [] {
    } else {
      SameLineCount(items[0], d);
      SameLineCountItems(items[1..], d);
    }
  }

  lemma {:induction false} SameLineCountEntries(entries: seq<Entry>, d: nat)
    ensures |EntryLines(entries)| == |OutlinedEntries(entries, d)|
    decreases entries
  {
    hide LinesOfEntry, OutlinedEntry;
    if entries == [] {
    } else {
      var last := entries[|entries| - 1];
      SameLineCountEntries(entries[..|entries| - 1], d);
      SameLineCountEntry(last.key, last.value, d);
    }
  }

  lemma {:induction false} SameLineCountEntry(key: string, value: Tree, d: nat)
    ensures |LinesOfEntry(key, value)| == |OutlinedEntry(key, value, d)|
    decreases value, 1
  {
    hide LinesOf, IndentLines;
    match value
    case Leaf(_) =>
    case Array(_, items) => SameLineCountElements(items, d + 1);
    case Bundle(_, entries) => SameLineCountEntries(entries, d + 1);
  }

  lemma {:induction false} SameLineCountElements(items: seq<Tree>, d: nat)
    ensures |ElementLines(items)| == |OutlinedElements(items, d)|
  {
    hide LinesOf;
    if items == [] {
    } else {
      SameLineCountElements(items[..|items| - 1], d);
      ElementShape(items[|items| - 1].text);
    }
  }

  lemma ElementShape(text: string)
    ensures LinesOf("  " + text + ",") == WithFirst("  ", LinesOf(text + ","))
  {
    hide LinesOf;
    OneLineLiterals();
    assert "  " + text + "," == "  " + (text + ",");
    LinesOfPrefixed("  ", text + ",");
  }

  // ----- drawn if and only if drawable, under any number of further re-indentations

  /** Three consecutive parts are drawn when each is. */
  lemma ThreeParts(d: nat, a: seq<string>, b: seq<string>, c: seq<string>, x: seq<Line>, y: seq<Line>, z: seq<Line>)
    requires |a| == |x| && |b| == |y|
    ensures IndentAll(d, a + b + c) == Rendered(x + y + z) <==>
            IndentAll(d, a) == Rendered(x) && IndentAll(d, b) == Rendered(y) && IndentAll(d, c) == Rendered(z)
  {
    IndentAllConcat(d, a, b);
    IndentAllConcat(d, a + b, c);
    RenderedConcat(x, y);
    RenderedConcat(x + y, z);
    SplitEqual(IndentAll(d, a) + IndentAll(d, b), IndentAll(d, c), Rendered(x) + Rendered(y), Rendered(z));
    SplitEqual(IndentAll(d, a), IndentAll(d, b), Rendered(x), Rendered(y));
  }

  lemma {:induction false} DrawnIffDrawable(t: Tree, d: nat)
    ensures IndentAll(d, PrintedLines(t)) == Rendered(Outlined(t, d)) <==> Drawable(t, d)
    decreases t, 0
  {
    hide IndentAll, IndentLines, Rendered, At, LinesOf, Blank, AllDrawable, BlockLines, OutlinedItems, DrawableItems,
      EntryLines, OutlinedEntries, DrawableEntries;
    LiteralsNotBlank();
    match t
    case Leaf(text) => LinesDrawnIff(d, LinesOf(text));
    case Array(_, items) =>
      PlainLine(d, "[");
      PlainLine(d, ",");
      PlainLine(d, "]");
      EmptyItems(d);
      var mid := if items == [] then [Line(d, ",")] else OutlinedItems(items, d + 1);
      if items != [] {
        ItemsDrawnIff(items, d);
        SameLineCountItems(items, d + 1);
      }
      ThreeParts(d, ["["], BlockLines(items), ["]"], [Line(d, "[")], mid, [Line(d, "]")]);
    case Bundle(text, entries) =>
      BundleDrawnIff(text + ":{  ", entries, "}", d);
  }

  lemma EmptyItems(d: nat)
    ensures BlockLines([]) == [","] && DrawableItems([], d)
  {
  }

  lemma {:induction false} BundleDrawnIff(head: string, entries: seq<Entry>, end: string, d: nat)
    requires !Blank(end)
    ensures IndentAll(d, LinesOf(head) + IndentLines(EntryLines(entries)) + [end]) ==
            Rendered(At(d, LinesOf(head)) + OutlinedEntries(entries, d + 1) + [Line(d, end)]) <==>
            AllDrawable(LinesOf(head), d) && DrawableEntries(entries, d + 1)
    decreases entries, 1
  {
    hide IndentAll, IndentLines, Rendered, At, LinesOf, Blank, AllDrawable, EntryLines, OutlinedEntries, DrawableEntries;
    PlainLine(d, end);
    LinesDrawnIff(d, LinesOf(head));
    EntriesDrawnIff(entries, d + 1);
    IndentAllNext(d, EntryLines(entries));
    SameLineCountEntries(entries, d + 1);
    ThreeParts(d, LinesOf(head), IndentLines(EntryLines(entries)), [end],
               At(d, LinesOf(head)), OutlinedEntries(entries, d + 1), [Line(d, end)]);
  }

  lemma {:induction false} ItemsDrawnIff(items: seq<Tree>, d: nat)
    requires items != []
    ensures IndentAll(d, BlockLines(items)) == Rendered(OutlinedItems(items, d + 1)) <==> DrawableItems(items, d)
    decreases items
  {
    hide IndentAll, Rendered, PrintedLines, Outlined, Block, Comma, DrawableItem;
    var first := Comma(Outlined(items[0], d + 1));
    BlockDrawnIff(items[0], d);
    EmptyItems(d);
    if |items| == 1 {
      assert OutlinedItems(items, d + 1) == first;
    } else {
      ItemsDrawnIff(items[1..], d);
      SameLineCount(items[0], d + 1);
      var rest := OutlinedItems(items[1..], d + 1);
      IndentAllConcat(d, Block(items[0]), BlockLines(items[1..]));
      RenderedConcat(first, rest);
      SplitEqual(IndentAll(d, Block(items[0])), IndentAll(d, BlockLines(items[1..])), Rendered(first), Rendered(rest));
    }
  }

  /** An element's block ends in a comma, which keeps its last line from being blank. */
  lemma {:induction false} BlockDrawnIff(t: Tree, d: nat)
    ensures IndentAll(d, Block(t)) == Rendered(Comma(Outlined(t, d + 1))) <==> DrawableItem(t, d)
    decreases t, 1
  {
    hide IndentAll, IndentLines, Rendered, PrintedLines, Outlined, LinesOf, Blank, AllDrawable, LineDrawable, Drawable;
    SameLineCount(t, d + 1);
    var ls, o := PrintedLines(t), Outlined(t, d + 1);
    var n := |ls| - 1;
    if t.Leaf? {
      LeafLines(t, d + 1);
      AtSlice(d + 1, ls, n);
    } else {
      ClosingLine(t, d + 1);
    }
    CommaDrawnIff(ls, o, d);
    IndentAllSnoc(d + 1, ls[..n], ls[n]);
    RenderedConcat(o[..n], [o[n]]);
    assert ls == ls[..n] + [ls[n]] && o == o[..n] + [o[n]];
    if t.Leaf? {
      LinesDrawnIff(d + 1, ls[..n]);
      LineDrawnIff(1, ls[n]);
      IndentByOne(ls[n]);
    } else {
      DrawnIffDrawable(t, d + 1);
      LiteralsNotBlank();
      PlainLine(d + 1, ls[n]);
      NonBlankIndent(1, ls[n]);
      IndentByOne(ls[n]);
      SplitEqual(IndentAll(d + 1, ls[..n]), IndentAll(d + 1, [ls[n]]), Rendered(o[..n]), Rendered([o[n]]));
    }
  }

  lemma IndentAllSnoc(d: nat, ls: seq<string>, l: string)
    ensures IndentAll(d, ls + [l]) == IndentAll(d, ls) + IndentAll(d, [l])
  {
    IndentAllConcat(d, ls, [l]);
  }

  lemma IndentByOne(l: string)
    ensures IndentBy(1, l) == IndentLine(l) && Spaces(1) == "  "
  {
    assert IndentBy(1, l) == IndentBy(0, IndentLine(l));
    assert Spaces(1) == "  " + Spaces(0);
  }

  lemma LeafLines(t: Tree, d: nat)
    requires t.Leaf?
    ensures PrintedLines(t) == LinesOf(t.text) && Outlined(t, d) == At(d, LinesOf(t.text))
  {
  }

  lemma AtSlice(d: nat, ls: seq<string>, n: nat)
    requires n < |ls|
    ensures At(d, ls)[..n] == At(d, ls[..n]) && At(d, ls)[n] == Line(d, ls[n])
  {
  }

  lemma ClosingLine(t: Tree, d: nat)
    requires !t.Leaf?
    ensures var ls, o := PrintedLines(t), Outlined(t, d);
            (ls[|ls| - 1] == "]" || ls[|ls| - 1] == "}") && o[|o| - 1] == Line(d, ls[|ls| - 1])
  {
  }

  /** The block is drawn when the lines but the last are, one level deeper, and the last is
      indented by two spaces before its comma. */
  lemma CommaDrawnIff(ls: seq<string>, o: seq<Line>, d: nat)
    requires |ls| == |o| > 0 && o[|o| - 1].depth == d + 1 && o[|o| - 1].content == ls[|ls| - 1]
    ensures var n := |ls| - 1;
            IndentAll(d, WithLast(IndentLines(ls), ",")) == Rendered(Comma(o)) <==>
            IndentAll(d + 1, ls[..n]) == Rendered(o[..n]) && IndentLine(ls[n]) == "  " + ls[n]
  {
    hide IndentAll, IndentLines, Rendered, Blank, IndentLine;
    var n := |ls| - 1;
    var last := IndentLineAt(ls, n);
    LiteralsNotBlank();
    NotBlankInside(last, ",", "");
    assert last + "," + "" == last + ",";
    PlainLine(d, last + ",");
    var commaed := Line(d + 1, ls[n] + ",");
    IndentLinesInit(ls, n);
    IndentAllNext(d, ls[..n]);
    IndentAllConcat(d, IndentLines(ls[..n]), [last + ","]);
    RenderedConcat(o[..n], [commaed]);
    SplitEqual(IndentAll(d + 1, ls[..n]), IndentAll(d, [last + ","]), Rendered(o[..n]), Rendered([commaed]));
    CommaLine(d, last, ls[n]);
  }

  lemma IndentLineAt(ls: seq<string>, n: nat) returns (l: string)
    requires n < |ls|
    ensures l == IndentLine(ls[n]) == IndentLines(ls)[n]
  {
    l := IndentLine(ls[n]);
  }

  lemma IndentLinesInit(ls: seq<string>, n: nat)
    requires n < |ls|
    ensures IndentLines(ls)[..n] == IndentLines(ls[..n])
  {
  }

  lemma CommaLine(d: nat, last: string, l: string)
    ensures Rendered([Line(d, last + ",")]) == Rendered([Line(d + 1, l + ",")]) <==> last == "  " + l
  {
    SpacesNext(d);
    var a, b := Spaces(d) + (last + ","), Spaces(d + 1) + (l + ",");
    assert Rendered([Line(d, last + ",")]) == [a] && Rendered([Line(d + 1, l + ",")]) == [b];
    assert b == Spaces(d) + (("  " + l) + ",");
    if a == b {
      assert a[|Spaces(d)|..] == last + "," && b[|Spaces(d)|..] == ("  " + l) + ",";
      assert (last + ",")[..|last|] == last && (("  " + l) + ",")[..|"  " + l|] == "  " + l;
    }
  }

  lemma {:induction false} EntriesDrawnIff(entries: seq<Entry>, d: nat)
    ensures IndentAll(d, EntryLines(entries)) == Rendered(OutlinedEntries(entries, d)) <==> DrawableEntries(entries, d)
    decreases entries, 0
  {
    hide IndentAll, Rendered, LinesOfEntry, OutlinedEntry, DrawableEntry;
    if entries == [] {
      NothingDrawn(d);
    } else {
      var init, last := entries[..|entries| - 1], entries[|entries| - 1];
      EntriesDrawnIff(init, d);
      EntryDrawnIff(last.key, last.value, d);
      SameLineCountEntries(init, d);
      var a, b := EntryLines(init), LinesOfEntry(last.key, last.value);
      var x, y := OutlinedEntries(init, d), OutlinedEntry(last.key, last.value, d);
      IndentAllConcat(d, a, b);
      RenderedConcat(x, y);
      SplitEqual(IndentAll(d, a), IndentAll(d, b), Rendered(x), Rendered(y));
    }
  }

  lemma NothingDrawn(d: nat)
    ensures IndentAll(d, []) == Rendered([])
  {
  }

  lemma {:induction false} EntryDrawnIff(key: string, value: Tree, d: nat)
    ensures IndentAll(d, LinesOfEntry(key, value)) == Rendered(OutlinedEntry(key, value, d)) <==>
            DrawableEntry(key, value, d)
    decreases value, 1
  {
    hide IndentAll, IndentLines, Rendered, At, LinesOf, Blank, AllDrawable, EntryLines, OutlinedEntries, DrawableEntries,
      ElementLines, OutlinedElements, OneLineElements;
    LiteralsNotBlank();
    match value
    case Leaf(text) => LinesDrawnIff(d, LinesOf(key + ": " + text + ","));
    case Bundle(text, entries) => BundleDrawnIff(key + ": " + text + ":{  ", entries, "},", d);
    case Array(_, items) =>
      var head := LinesOf(key + ": [");
      LinesDrawnIff(d, head);
      ElementsDrawnIff(items, d);
      SameLineCountElements(items, d + 1);
      PlainLine(d, "],");
      ThreeParts(d, head, ElementLines(items), ["],"], At(d, head), OutlinedElements(items, d + 1), [Line(d, "],")]);
  }

  lemma {:induction false} ElementsDrawnIff(items: seq<Tree>, d: nat)
    ensures IndentAll(d, ElementLines(items)) == Rendered(OutlinedElements(items, d + 1)) <==> OneLineElements(items)
  {
    hide IndentAll, Rendered, LinesOf, At;
    if items == [] {
      NothingDrawn(d);
    } else {
      var init, text := items[..|items| - 1], items[|items| - 1].text;
      ElementsDrawnIff(init, d);
      ElementDrawnIff(text, d);
      SameLineCountElements(init, d + 1);
      var a, b := ElementLines(init), LinesOf("  " + text + ",");
      var x, y := OutlinedElements(init, d + 1), At(d + 1, LinesOf(text + ","));
      IndentAllConcat(d, a, b);
      RenderedConcat(x, y);
      SplitEqual(IndentAll(d, a), IndentAll(d, b), Rendered(x), Rendered(y));
    }
  }

  lemma OneLineElementDrawn(text: string, d: nat)
    requires OneLine(text)
    ensures IndentBy(d, "  " + (text + ",")) == Spaces(d + 1) + (text + ",")
  {
    hide Blank;
    SpacesNext(d);
    LiteralsNotBlank();
    NotBlankInside("  " + text, ",", "");
    assert "  " + (text + ",") == "  " + text + "," + "";
    NonBlankIndent(d, "  " + (text + ","));
    assert Spaces(d) + ("  " + (text + ",")) == Spaces(d) + "  " + (text + ",");
  }

  lemma OuterLineMisplaced(l: string, d: nat)
    ensures IndentBy(d, l) != Spaces(d + 1) + l
  {
    LineDrawnIff(d, l);
    SpacesNext(d + 1);
  }

  /** Only the first line of an element gets the two spaces of the array it is in. */
  lemma ElementDrawnIff(text: string, d: nat)
    ensures IndentAll(d, LinesOf("  " + text + ",")) == Rendered(At(d + 1, LinesOf(text + ","))) <==> OneLine(text)
  {
    hide LinesOf, Blank, OneLine, IndentBy, Spaces;
    ElementShape(text);
    OneLineLiterals();
    LinesOfSuffixed(text, ",");
    OneLineIff(text);
    var ls := LinesOf(text + ",");
    if |ls| == 1 {
      LinesOfOne(text);
      OneLineElementDrawn(text, d);
      assert ls == [text + ","] && WithFirst("  ", ls) == ["  " + (text + ",")];
    } else {
      OuterLineMisplaced(ls[1], d);
      assert IndentAll(d, WithFirst("  ", ls))[1] == IndentBy(d, ls[1]);
      assert Rendered(At(d + 1, ls))[1] == Spaces(d + 1) + ls[1];
    }
  }

  // ----- main results

  /** For every tree, whatever texts it holds: what is printed, split into lines, is the
      outline with every line indented by its depth, if and only if it is drawable. */
  lemma IndentationIsNesting(t: Tree)
    ensures LinesOf(TextOf(t)) == Rendered(Outlined(t, 0)) <==> Drawable(t, 0)
  {
    hide LinesOf, TextOf, PrintedLines, Rendered, Outlined, Drawable;
    TextIsLines(t);
    DrawnIffDrawable(t, 0);
    var ls := PrintedLines(t);
    assert IndentAll(0, ls) == ls;
  }

  /** The number of lines, by recursion over the tree. */
  function LineCount(t: Tree): nat
    decreases t
  {
    match t
    case Leaf(text) => |LinesOf(text)|
    case Array(_, items) => if items == [] then 3 else 2 + LineCounts(items)
    case Bundle(text, entries) => |LinesOf(text)| + EntryLineCounts(entries) + 1
  }

  function LineCounts(items: seq<Tree>): nat
    decreases items
  {
    if items == [] then 0 else LineCount(items[0]) + LineCounts(items[1..])
  }

  /** The line breaks of the key, and the lines of the value; an array in a bundle takes a
      line to open, one to close, and the lines of its elements. */
  function EntryLineCounts(entries: seq<Entry>): nat
    decreases entries
  {
    if entries == [] then 0
    else
      var last := entries[|entries| - 1];
      EntryLineCounts(entries[..|entries| - 1]) + |LinesOf(last.key)| - 1 +
      match last.value
      case Leaf(text) => |LinesOf(text)|
      case Array(_, items) => 2 + ElementLineCounts(items)
      case Bundle(_, _) => LineCount(last.value)
  }

  function ElementLineCounts(items: seq<Tree>): nat {
    if items == [] then 0
    else ElementLineCounts(items[..|items| - 1]) + |LinesOf(items[|items| - 1].text)|
  }

  lemma {:induction false} PrintedLineCount(t: Tree)
    ensures |PrintedLines(t)| == LineCount(t)
    decreases t
  {
    hide IndentLines, LinesOf;
    match t
    case Leaf(_) =>
    case Array(_, items) => BlockLineCount(items);
    case Bundle(text, entries) =>
      EntryLineCount(entries);
      OneLineLiterals();
      LinesOfSuffixed(text, ":{  ");
  }

  lemma {:induction false} BlockLineCount(items: seq<Tree>)
    ensures items != [] ==> |BlockLines(items)| == LineCounts(items)
    decreases items
  {
    hide PrintedLines, LineCount;
    if items == [] {
    } else {
      PrintedLineCount(items[0]);
      BlockLineCount(items[1..]);
    }
  }

  lemma {:induction false} EntryLineCount(entries: seq<Entry>)
    ensures |EntryLines(entries)| == EntryLineCounts(entries)
    decreases entries
  {
    hide LinesOf, IndentLines;
    if entries == [] {
    } else {
      var last := entries[|entries| - 1];
      EntryLineCount(entries[..|entries| - 1]);
      OneLineLiterals();
      match last.value {
        case Leaf(text) =>
          KeyedLineCount(last.key, text, ",");
        case Array(_, items) =>
          LinesOfSuffixed(last.key, ": [");
          ElementLineCount(items);
        case Bundle(text, entries) =>
          KeyedLineCount(last.key, text, ":{  ");
          EntryLineCount(entries);
      }
    }
  }

  lemma KeyedLineCount(key: string, text: string, suffix: string)
    requires OneLine(suffix)
    ensures |LinesOf(key + ": " + text + suffix)| == |LinesOf(key)| + |LinesOf(text)| - 1
  {
    hide LinesOf;
    LinesOfSuffixed(key + ": " + text, suffix);
    LinesOfConcat(key + ": ", text);
    LinesOfSuffixed(key, ": ");
  }

  lemma {:induction false} ElementLineCount(items: seq<Tree>)
    ensures |ElementLines(items)| == ElementLineCounts(items)
  {
    hide LinesOf;
    if items == [] {
    } else {
      ElementLineCount(items[..|items| - 1]);
      ElementShape(items[|items| - 1].text);
      OneLineLiterals();
      LinesOfSuffixed(items[|items| - 1].text, ",");
    }
  }

  /** The printed text has exactly `LineCount` lines. */
  lemma LineCountExact(t: Tree)
    ensures |LinesOf(TextOf(t))| == LineCount(t)
  {
    hide LinesOf, TextOf, PrintedLines, LineCount;
    TextIsLines(t);
    PrintedLineCount(t);
  }

  lemma {:induction false} BlockAt(items: seq<Tree>, i: nat)
    requires i < |items|
    ensures var o := LineCounts(items[..i]);
            o + LineCount(items[i]) <= |BlockLines(items)| &&
            BlockLines(items)[o..o + LineCount(items[i])] == Block(items[i])
    decreases items
  {
    hide PrintedLines, LineCount, Block;
    PrintedLineCount(items[0]);
    PrintedLineCount(items[i]);
    if i == 0 {
    } else {
      BlockAt(items[1..], i - 1);
      assert items[..i][1..] == items[1..][..i - 1];
      var o := LineCounts(items[1..][..i - 1]);
      assert BlockLines(items) == Block(items[0]) + BlockLines(items[1..]);
      assert BlockLines(items)[|Block(items[0])|..] == BlockLines(items[1..]);
    }
  }

  /** Inside the print of an array the lines of element `i` are its own print with each line
      indented and a comma behind the last; the indent is two spaces on every line, so that
      taking them off gives the print back, exactly when no non-empty line of it is blank. */
  lemma {:induction false} BlockGivesBackChild(t: Tree, i: nat)
    requires t.Array? && i < |t.items|
    ensures var ls, child := LinesOf(TextOf(t)), LinesOf(TextOf(t.items[i]));
            var o := 1 + LineCounts(t.items[..i]);
            o + |child| <= |ls| &&
            ls[o..o + |child|] == WithLast(IndentLines(child), ",") &&
            (IndentLines(child) == Indented(child) <==> AllDrawable(child, 1))
  {
    hide LinesOf, TextOf, LineCount, LineCounts, BlockLines, Blank, IndentLine;
    var item := t.items[i];
    TextIsLines(t);
    TextIsLines(item);
    PrintedLineCount(item);
    BlockAt(t.items, i);
    InsideFrame("[", BlockLines(t.items), "]", LineCounts(t.items[..i]), LineCount(item));
    var child := PrintedLines(item);
    forall k | 0 <= k < |child|
      ensures IndentLines(child)[k] == Indented(child)[k] <==> LineDrawable(child[k], 1)
    {
      IndentsByTwo(child[k]);
    }
  }

  lemma InsideFrame(first: string, ls: seq<string>, last: string, o: nat, n: nat)
    requires o + n <= |ls|
    ensures ([first] + ls + [last])[1 + o..1 + o + n] == ls[o..o + n]
  {
  }
}
