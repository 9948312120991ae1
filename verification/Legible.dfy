/** Trees whose text lines all hold a visible character: they are drawn as they stand, with
    every leaf behind two spaces per level, and small ones are written out in full. */
module Legible {
  import opened Lines
  import opened Printer
  import opened Indentation
  import opened Outline

  /** The line holds a printable ASCII character other than the space. */
  predicate Inked(l: string) {
    exists k | 0 <= k < |l| :: '!' <= l[k] <= '~'
  }

  predicate AllInked(ls: seq<string>) {
    forall i | 0 <= i < |ls| :: Inked(ls[i])
  }

  predicate InkedText(s: string) {
    s == "" || AllInked(LinesOf(s))
  }

  /** Every text is empty or holds a visible character on each of its lines; elements of arrays
      in bundles need one line only. */
  predicate LegibleTree(t: Tree)
    decreases t
  {
    match t
    case Leaf(text) => InkedText(text)
    case Array(_, items) => forall i | 0 <= i < |items| :: LegibleTree(items[i])
    case Bundle(text, entries) => InkedText(text) && LegibleEntries(entries)
  }

  predicate LegibleEntries(entries: seq<Entry>)
    decreases entries
  {
    forall i | 0 <= i < |entries| ::
      InkedText(entries[i].key) &&
      if entries[i].value.Array? then
        forall j | 0 <= j < |entries[i].value.items| :: OneLine(entries[i].value.items[j].text)
      else LegibleTree(entries[i].value)
  }

  // ----- visible characters are not white space

  /** The white space of Kotlin, one by one: the controls from tab to carriage return, the four
      separators before the space, the space, and the space and line separators of Unicode. */
  const WHITE := "\t\n\U{0B}\U{0C}\r\U{1C}\U{1D}\U{1E}\U{1F} \U{A0}\U{1680}" +
                 "\U{2000}\U{2001}\U{2002}\U{2003}\U{2004}\U{2005}\U{2006}\U{2007}\U{2008}\U{2009}\U{200A}" +
                 "\U{2028}\U{2029}\U{202F}\U{205F}\U{3000}"

  /** No other character is white space, and so no printable one of ASCII is. */
  lemma WhiteSpace(c: char)
    ensures IsWhitespace(c) <==> c in WHITE
    ensures '!' <= c <= '~' ==> !IsWhitespace(c)
  {
  }

  lemma InkedNotBlank(l: string)
    requires Inked(l)
    ensures !Blank(l)
  {
    var k :| 0 <= k < |l| && '!' <= l[k] <= '~';
    WhiteSpace(l[k]);
  }

  lemma InkedInside(a: string, b: string, c: string)
    requires Inked(b)
    ensures Inked(a + b + c)
  {
    var k :| 0 <= k < |b| && '!' <= b[k] <= '~';
    assert (a + b + c)[|a| + k] == b[k];
  }

  lemma InkedDrawable(ls: seq<string>, d: nat)
    requires AllInked(ls)
    ensures AllDrawable(ls, d)
  {
    forall i | 0 <= i < |ls| ensures LineDrawable(ls[i], d) {
      InkedNotBlank(ls[i]);
    }
  }

  lemma Ink()
    ensures Inked(",") && Inked(": ") && Inked(": [") && Inked(":{  ") && OneLine(": ")
  {
    assert ","[0] == ',' && ": "[0] == ':' && ": ["[0] == ':' && ":{  "[0] == ':';
  }

  // ----- legible trees are drawable

  lemma SuffixInked(x: string, suffix: string)
    requires InkedText(x) && Inked(suffix) && OneLine(suffix)
    ensures AllInked(LinesOf(x + suffix))
  {
    hide LinesOf, Inked;
    LinesOfSuffixed(x, suffix);
    var ls := LinesOf(x);
    var n := |ls| - 1;
    InkedInside(ls[n], suffix, "");
    assert ls[n] + suffix + "" == ls[n] + suffix;
    if x == "" {
      LinesOfNone();
    }
  }

  lemma KeyedInked(key: string, text: string, suffix: string)
    requires InkedText(key) && InkedText(text) && Inked(suffix) && OneLine(suffix)
    ensures AllInked(LinesOf(key + ": " + text + suffix))
  {
    hide LinesOf, Inked, InkedText;
    Ink();
    OneLineLiterals();
    SuffixInked(key, ": ");
    SuffixInked(text, suffix);
    assert key + ": " + text + suffix == (key + ": ") + (text + suffix);
    LinesOfConcat(key + ": ", text + suffix);
    RunInked(LinesOf(key + ": "), LinesOf(text + suffix));
  }

  lemma RunInked(a: seq<string>, b: seq<string>)
    requires a != [] && b != [] && AllInked(a) && AllInked(b)
    ensures AllInked(Run(a, b))
  {
    hide Inked;
    InkedInside("", a[|a| - 1], b[0]);
    assert "" + a[|a| - 1] + b[0] == a[|a| - 1] + b[0];
  }

  lemma {:induction false} LegibleDrawable(t: Tree, d: nat)
    requires LegibleTree(t) && !t.Leaf?
    ensures Drawable(t, d)
    decreases t, 0
  {
    hide LinesOf, AllDrawable, Inked, InkedText;
    match t
    case Array(_, items) => LegibleItemsDrawable(items, d);
    case Bundle(text, entries) =>
      Ink();
      OneLineLiterals();
      SuffixInked(text, ":{  ");
      InkedDrawable(LinesOf(text + ":{  "), d);
      LegibleEntriesDrawable(entries, d + 1);
  }

  lemma {:induction false} LegibleItemsDrawable(items: seq<Tree>, d: nat)
    requires forall i | 0 <= i < |items| :: LegibleTree(items[i])
    ensures DrawableItems(items, d)
    decreases items
  {
    hide LinesOf, Inked, Blank;
    if items == [] {
    } else {
      assert LegibleTree(items[0]);
      if items[0].Leaf? {
        LegibleLeafDrawable(items[0].text, d);
      } else {
        LegibleDrawable(items[0], d + 1);
      }
      LegibleItemsDrawable(items[1..], d);
    }
  }

  lemma LegibleLeafDrawable(text: string, d: nat)
    requires InkedText(text)
    ensures DrawableItem(Leaf(text), d)
  {
    hide LinesOf, Inked, Blank;
    var ls := LinesOf(text);
    if text == "" {
      LinesOfNone();
    } else {
      InkedDrawable(ls, d + 1);
      InkedDrawable(ls, 1);
    }
  }

  lemma {:induction false} LegibleEntriesDrawable(entries: seq<Entry>, d: nat)
    requires LegibleEntries(entries)
    ensures DrawableEntries(entries, d)
    decreases entries
  {
    hide LinesOf, AllDrawable, Inked, InkedText, OneLine;
    if entries == [] {
    } else {
      var key, value := entries[|entries| - 1].key, entries[|entries| - 1].value;
      LegibleEntriesDrawable(entries[..|entries| - 1], d);
      Ink();
      OneLineLiterals();
      match value {
        case Leaf(text) =>
          KeyedInked(key, text, ",");
          InkedDrawable(LinesOf(key + ": " + text + ","), d);
        case Array(_, items) =>
          SuffixInked(key, ": [");
          InkedDrawable(LinesOf(key + ": ["), d);
          OneLineTextsHold(items);
        case Bundle(text, entries) =>
          KeyedInked(key, text, ":{  ");
          InkedDrawable(LinesOf(key + ": " + text + ":{  "), d);
          LegibleEntriesDrawable(entries, d + 1);
      }
    }
  }

  lemma {:induction false} OneLineTextsHold(items: seq<Tree>)
    requires forall j | 0 <= j < |items| :: OneLine(items[j].text)
    ensures OneLineElements(items)
  {
    hide OneLine;
    if items == [] {
    } else {
      OneLineTextsHold(items[..|items| - 1]);
    }
  }

  /** A legible tree is printed as its outline. */
  lemma LegibleIsDrawn(t: Tree)
    requires LegibleTree(t)
    ensures LinesOf(TextOf(t)) == Rendered(Outlined(t, 0))
  {
    hide LinesOf, TextOf, Rendered, Outlined;
    if !t.Leaf? {
      LegibleDrawable(t, 0);
    }
    IndentationIsNesting(t);
  }

  /** The indent of a level is two spaces. */
  lemma {:induction false} SpacesAre(d: nat, i: nat)
    ensures |Spaces(d)| == 2 * d
    ensures i < 2 * d ==> Spaces(d)[i] == ' '
  {
    if d == 0 {
    } else {
      SpacesAre(d - 1, if i < 2 then 0 else i - 2);
    }
  }

  // ----- every leaf stands behind its indent

  /** `d` levels down in the print there is a leaf whose line is `before + text + ","`: an
      element of an array, or an entry of a bundle behind its key. */
  predicate HasLeaf(t: Tree, d: nat, before: string, text: string)
    decreases t, 0
  {
    match t
    case Leaf(_) => false
    case Array(_, items) => exists i | 0 <= i < |items| :: ItemHasLeaf(items[i], d, before, text)
    case Bundle(_, entries) => EntriesHaveLeaf(entries, d, before, text)
  }

  predicate ItemHasLeaf(item: Tree, d: nat, before: string, text: string)
    decreases item, 1
  {
    if item.Leaf? then d == 1 && before == "" && text == item.text
    else d > 1 && HasLeaf(item, d - 1, before, text)
  }

  predicate EntriesHaveLeaf(entries: seq<Entry>, d: nat, before: string, text: string)
    decreases entries
  {
    exists i | 0 <= i < |entries| ::
      match entries[i].value
      case Leaf(value) => d == 1 && before == entries[i].key + ": " && text == value
      case Array(_, items) => d == 2 && before == "" && exists j | 0 <= j < |items| :: text == items[j].text
      case Bundle(_, children) => d > 1 && EntriesHaveLeaf(children, d - 1, before, text)
  }

  lemma IndentedIn(ls: seq<string>, l: string)
    requires l in ls && !Blank(l)
    ensures "  " + l in IndentLines(ls)
  {
    hide Blank;
    var k :| 0 <= k < |ls| && ls[k] == l;
    IndentsByTwo(l);
    assert IndentLines(ls)[k] == "  " + l;
  }

  lemma {:induction false} EntryLinesHold(entries: seq<Entry>, i: nat, l: string)
    requires i < |entries| && l in LinesOfEntry(entries[i].key, entries[i].value)
    ensures l in EntryLines(entries)
  {
    hide LinesOfEntry;
    if i < |entries| - 1 {
      EntryLinesHold(entries[..|entries| - 1], i, l);
    }
  }

  lemma {:induction false} ElementLinesHold(items: seq<Tree>, j: nat)
    requires j < |items| && OneLine(items[j].text)
    ensures "  " + items[j].text + "," in ElementLines(items)
  {
    hide LinesOf;
    var n := |items| - 1;
    if j < n {
      ElementLinesHold(items[..n], j);
    } else {
      OneLineLiterals();
      OneLineParts("  " + items[n].text, ",");
      OneLineParts("  ", items[n].text);
      LinesOfOne("  " + items[n].text + ",");
    }
  }

  lemma CommaNotBlank(a: string)
    ensures !Blank(a + ",")
  {
    Ink();
    InkedInside(a, ",", "");
    assert a + "," + "" == a + ",";
    InkedNotBlank(a + ",");
  }

  lemma NextIndent(d: nat, before: string, text: string)
    requires d > 0
    ensures Spaces(d) + before + text + "," == "  " + (Spaces(d - 1) + before + text + ",")
    ensures !Blank(Spaces(d - 1) + before + text + ",")
  {
    hide Blank;
    CommaNotBlank(Spaces(d - 1) + before + text);
    assert Spaces(d) + before + text + "," == "  " + (Spaces(d - 1) + before + text + ",");
  }

  lemma {:induction false} LeafInEntries(entries: seq<Entry>, d: nat, before: string, text: string)
    requires EntriesHaveLeaf(entries, d, before, text) && OneLine(before) && OneLine(text)
    ensures d > 0 && Spaces(d) + before + text + "," in IndentLines(EntryLines(entries))
    decreases entries
  {
    hide LinesOf, Blank, OneLine, IndentLines, EntryLines, ElementLines, Spaces, EntriesHaveLeaf;
    var i := EntryWithLeaf(entries, d, before, text);
    var inner := Spaces(d - 1) + before + text + ",";
    NextIndent(d, before, text);
    match entries[i].value {
      case Leaf(_) =>
        assert inner == before + text + "," by {
          NoSpaces(before);
        }
        OneLineLiterals();
        OneLineParts(before, text);
        OneLineParts(before + text, ",");
        LinesOfOne(inner);
      case Array(_, items) =>
        var j :| 0 <= j < |items| && text == items[j].text;
        ElementLinesHold(items, j);
        SpacesNext(0);
        SpacesNext(1);
        assert Spaces(1) == "  " by {
          IndentByOne("");
        }
        assert inner == "  " + text + ",";
      case Bundle(_, children) =>
        LeafInEntries(children, d - 1, before, text);
    }
    EntryLinesHold(entries, i, inner);
    IndentedIn(EntryLines(entries), inner);
  }

  lemma EntryWithLeaf(entries: seq<Entry>, d: nat, before: string, text: string) returns (i: nat)
    requires EntriesHaveLeaf(entries, d, before, text)
    ensures i < |entries| && d > 0
    ensures match entries[i].value
            case Leaf(value) => d == 1 && before == entries[i].key + ": " && text == value
            case Array(_, items) => d == 2 && before == "" && exists j | 0 <= j < |items| :: text == items[j].text
            case Bundle(_, children) => d > 1 && EntriesHaveLeaf(children, d - 1, before, text)
  {
    i :| 0 <= i < |entries| &&
      match entries[i].value
      case Leaf(value) => d == 1 && before == entries[i].key + ": " && text == value
      case Array(_, items) => d == 2 && before == "" && exists j | 0 <= j < |items| :: text == items[j].text
      case Bundle(_, children) => d > 1 && EntriesHaveLeaf(children, d - 1, before, text);
  }

  /** Whatever else the tree holds, a one-line leaf with a visible character stands in the print
      on a line of its own, behind two spaces for every level. */
  lemma {:induction false} LeafStandsIndented(t: Tree, d: nat, before: string, text: string)
    requires HasLeaf(t, d, before, text) && OneLine(before) && OneLine(text) && Inked(text)
    ensures d > 0 && Spaces(d) + before + text + "," in LinesOf(TextOf(t))
    decreases t, 0
  {
    hide LinesOf, TextOf, OneLine, Inked, IndentLines, EntryLines, Spaces, BlockLines, EntriesHaveLeaf, ItemHasLeaf;
    TextIsLines(t);
    match t
    case Array(_, items) =>
      var i :| 0 <= i < |items| && ItemHasLeaf(items[i], d, before, text);
      LeafInBlock(items[i], d, before, text);
      BlockAt(items, i);
    case Bundle(_, entries) =>
      LeafInEntries(entries, d, before, text);
  }

  lemma {:induction false} LeafInBlock(item: Tree, d: nat, before: string, text: string)
    requires ItemHasLeaf(item, d, before, text) && OneLine(before) && OneLine(text) && Inked(text)
    ensures d > 0 && Spaces(d) + before + text + "," in Block(item)
    decreases item, 1
  {
    hide LinesOf, TextOf, OneLine, Inked, Blank, IndentLine, Spaces, HasLeaf;
    NextIndent(d, before, text);
    if item.Leaf? {
      LinesOfOne(text);
      InkedNotBlank(text);
      IndentsByTwo(text);
      IndentByOne("");
      assert Spaces(1) + "" + text + "," == "  " + text + ",";
      assert Block(item)[0] == IndentLine(text) + ",";
    } else {
      var inner := Spaces(d - 1) + before + text + ",";
      LeafStandsIndented(item, d - 1, before, text);
      TextIsLines(item);
      var ls := PrintedLines(item);
      var k :| 0 <= k < |ls| && ls[k] == inner;
      ClosingLine(item, 0);
      assert inner[|inner| - 1] == ',';
      assert k < |ls| - 1;
      IndentsByTwo(inner);
      assert Block(item)[k] == IndentLine(inner);
    }
  }

  // ----- small trees, written out

  lemma LineBreaks()
    ensures LinesOf("a\r\nb\rc\nd") == ["a", "b", "c", "d"]
  {
    hide LinesOf;
    assert OneLine("a") && OneLine("b") && OneLine("c") && OneLine("d");
    LinesOfOne("a");
    LinesOfOne("d");
    LinesOfBreak("c", "d");
    LinesOfOne("c");
    LinesOfOne("b");
    assert "c\nd" == "c" + "\n" + "d" && "\rc\nd" == ['\r'] + "c\nd" && "b\rc\nd" == "b" + "\rc\nd";
    assert "\r\nb\rc\nd" == "\r\n" + "b\rc\nd" && "a\r\nb\rc\nd" == "a" + "\r\nb\rc\nd";
    LinesOfCons('\r', "c\nd");
    LinesOfConcat("b", "\rc\nd");
    LinesOfCrLf("b\rc\nd");
    LinesOfConcat("a", "\r\nb\rc\nd");
    assert "b" + "" == "b" && "a" + "" == "a";
  }

  /** `prependIndent` on one line: white space is filled up to two characters, never more. */
  lemma IndentedLines()
    ensures IndentLine("") == "  " && IndentLine(" ") == "  " && IndentLine("\t") == "  "
    ensures IndentLine(" \t ") == " \t " && IndentLine("3") == "  3" && IndentLine(" 3") == "   3"
  {
    assert "3"[0] == '3' && " 3"[1] == '3';
    InkedNotBlank("3");
    InkedNotBlank(" 3");
    assert "  " + " 3" == "   3";
  }

  lemma IndentedText(text: string)
    requires OneLine(text) && (Inked(text) || text == "")
    ensures PrependIndent(text) == "  " + text
  {
    hide Inked, Blank;
    LinesOfOne(text);
    if text != "" {
      InkedNotBlank(text);
    }
    IndentsByTwo(text);
    assert IndentLines([text]) == ["  " + text];
  }

  lemma LeafBlock(text: string)
    ensures Blocks([Leaf(text)]) == PrependIndent(text)
  {
    hide PrependIndent;
  }

  /** Arrays of no, one and two leaves. */
  lemma SmallArrays(name: string, a: string, b: string)
    requires OneLine(a) && (Inked(a) || a == "") && OneLine(b) && (Inked(b) || b == "")
    ensures TextOf(Array(name, [])) == "[\n,\n]"
    ensures TextOf(Array(name, [Leaf(a)])) == "[\n  " + a + ",\n]"
    ensures TextOf(Array(name, [Leaf(a), Leaf(b)])) == "[\n  " + a + ",\n  " + b + ",\n]"
  {
    hide PrependIndent, OneLine, Inked;
    IndentedText(a);
    IndentedText(b);
    assert [Leaf(a), Leaf(b)][1..] == [Leaf(b)];
    LeafBlock(a);
    LeafBlock(b);
    assert Blocks([Leaf(a), Leaf(b)]) == "  " + a + ",\n" + ("  " + b);
    assert "[\n" + ("  " + a + ",\n" + ("  " + b)) + ",\n]" == "[\n  " + a + ",\n  " + b + ",\n]";
    assert "[\n" + ("  " + a) + ",\n]" == "[\n  " + a + ",\n]";
    assert "[\n" + "" + ",\n]" == "[\n,\n]";
  }

  /** The variable `out`: each line behind a line end, and two spaces put before all of them. */
  lemma IndentedOut(ls: seq<string>)
    requires ls != [] && AllOneLine(ls)
    ensures PrependIndent("\n" + JoinLines(ls)) == "  \n" + JoinLines(IndentLines(ls))
  {
    hide JoinLines, OneLine, IndentLine;
    JoinNext("", ls);
    OneLineLiterals();
    LinesOfJoin([""] + ls);
    IndentedLines();
    JoinNext("  ", IndentLines(ls));
    assert "" + "\n" + JoinLines(ls) == "\n" + JoinLines(ls);
    assert IndentLines([""] + ls) == ["  "] + IndentLines(ls);
  }

  lemma JoinNext(first: string, ls: seq<string>)
    requires ls != []
    ensures JoinLines([first] + ls) == first + "\n" + JoinLines(ls)
  {
    JoinConcat([first], ls);
  }

  /** A bundle of one leaf. */
  lemma LeafBundle(name: string, key: string, text: string)
    requires OneLine(key) && OneLine(text)
    ensures TextOf(Bundle(name, [Entry(key, Leaf(text))])) == name + ":{  \n  " + key + ": " + text + ",\n}"
  {
    hide PrependIndent, OneLine, Blank, IndentLine;
    var line := key + ": " + text + ",";
    OneLineEntry(key, text);
    IndentedOut([line]);
    CommaNotBlank(key + ": " + text);
    IndentsByTwo(line);
    assert IndentLines([line]) == ["  " + line];
    OneEntry(Entry(key, Leaf(text)));
    assert "\n" + key + ": " + text + "," == "\n" + line;
    assert name + ":{" + ("  \n" + ("  " + line)) + "\n}" == name + ":{  \n  " + key + ": " + text + ",\n}";
  }

  lemma OneLineEntry(key: string, text: string)
    requires OneLine(key) && OneLine(text)
    ensures OneLine(key + ": " + text + ",")
  {
    OneLineParts(key, ": ");
    OneLineParts(key + ": ", text);
    OneLineParts(key + ": " + text, ",");
  }

  lemma OneEntry(e: Entry)
    ensures EntriesText([e]) == EntryText(e.key, e.value)
  {
    hide EntryText;
    assert [e][..0] == [];
    NoEntries();
    assert "" + EntryText(e.key, e.value) == EntryText(e.key, e.value);
  }

  /** A bundle of one array, whose elements stand two levels deep. */
  lemma VectorBundle(name: string, key: string, vector: string, a: string, b: string)
    requires OneLine(key) && OneLine(a) && OneLine(b)
    ensures TextOf(Bundle(name, [Entry(key, Array(vector, [Leaf(a), Leaf(b)]))])) ==
            name + ":{  \n  " + key + ": [\n    " + a + ",\n    " + b + ",\n  ],\n}"
  {
    hide PrependIndent, OneLine, Blank, IndentLine, JoinLines, IndentLines, EntriesText, ElementsText, TextOf;
    var items := [Leaf(a), Leaf(b)];
    var ls := [key + ": [", "  " + a + ",", "  " + b + ",", "],"];
    VectorLines(key, a, b);
    IndentedOut(ls);
    FourLines(ls[0], ls[1], ls[2], ls[3]);
    FourLines("  " + ls[0], "  " + ls[1], "  " + ls[2], "  " + ls[3]);
    OneEntry(Entry(key, Array(vector, items)));
    TwoElements(items);
    VectorText(key, a, b);
    VectorPrint(name, key, a, b);
    BundleText(name, [Entry(key, Array(vector, items))]);
  }

  lemma VectorText(key: string, a: string, b: string)
    ensures "\n" + key + ": [" + ("\n  " + a + "," + ("\n  " + b + ",")) + "\n]," ==
            "\n" + ((key + ": [") + "\n" + (("  " + a + ",") + "\n" + (("  " + b + ",") + "\n" + "],")))
  {
  }

  lemma VectorPrint(name: string, key: string, a: string, b: string)
    ensures var first, second := "  " + ("  " + a + ","), "  " + ("  " + b + ",");
            name + ":{" +
            ("  \n" + (("  " + (key + ": [")) + "\n" + (first + "\n" + (second + "\n" + ("  " + "],"))))) + "\n}" ==
            name + ":{  \n  " + key + ": [\n    " + a + ",\n    " + b + ",\n  ],\n}"
  {
  }

  lemma VectorLines(key: string, a: string, b: string)
    requires OneLine(key) && OneLine(a) && OneLine(b)
    ensures var ls := [key + ": [", "  " + a + ",", "  " + b + ",", "],"];
            AllOneLine(ls) && IndentLines(ls) == ["  " + ls[0], "  " + ls[1], "  " + ls[2], "  " + ls[3]]
  {
    hide OneLine, Blank, IndentLine, Inked;
    var ls := [key + ": [", "  " + a + ",", "  " + b + ",", "],"];
    OneLineLiterals();
    OneLineParts(key, ": [");
    OneLineParts("  ", a);
    OneLineParts("  " + a, ",");
    OneLineParts("  ", b);
    OneLineParts("  " + b, ",");
    Ink();
    InkedInside(key, ": [", "");
    assert key + ": [" + "" == key + ": [";
    InkedNotBlank(key + ": [");
    CommaNotBlank("  " + a);
    CommaNotBlank("  " + b);
    CommaNotBlank("]");
    assert "]" + "," == "],";
    forall i | 0 <= i < 4 ensures IndentLine(ls[i]) == "  " + ls[i] {
      IndentsByTwo(ls[i]);
    }
  }

  lemma FourLines(a: string, b: string, c: string, d: string)
    ensures JoinLines([a, b, c, d]) == a + "\n" + (b + "\n" + (c + "\n" + d))
  {
    hide JoinLines;
    JoinNext(a, [b, c, d]);
    JoinNext(b, [c, d]);
    JoinNext(c, [d]);
    JoinOne(d);
    assert [a] + [b, c, d] == [a, b, c, d] && [b] + [c, d] == [b, c, d] && [c] + [d] == [c, d];
  }

  lemma TwoElements(items: seq<Tree>)
    requires |items| == 2
    ensures ElementsText(items) == "\n  " + items[0].text + "," + ("\n  " + items[1].text + ",")
  {
    NoEntries();
    assert items[..1][..0] == [] && items[..1][0] == items[0];
    assert ElementsText(items[..1]) == "\n  " + items[0].text + ",";
  }

  /** A bundle in a bundle. */
  lemma NestedBundle(name: string, key: string, inner: string, innerKey: string, text: string)
    requires OneLine(key) && OneLine(inner) && OneLine(innerKey) && OneLine(text)
    ensures TextOf(Bundle(name, [Entry(key, Bundle(inner, [Entry(innerKey, Leaf(text))]))])) ==
            name + ":{  \n  " + key + ": " + inner + ":{  \n    " + innerKey + ": " + text + ",\n  },\n}"
  {
    hide PrependIndent, OneLine, Blank, IndentLine, JoinLines, IndentLines, TextOf, EntriesText;
    var child := Bundle(inner, [Entry(innerKey, Leaf(text))]);
    var ls := [key + ": " + inner + ":{  ", "  " + innerKey + ": " + text + ",", "},"];
    LeafBundle(inner, innerKey, text);
    NestedLines(key, inner, innerKey, text);
    IndentedOut(ls);
    ThreeLines(ls[0], ls[1], ls[2]);
    ThreeLines("  " + ls[0], "  " + ls[1], "  " + ls[2]);
    OneEntry(Entry(key, child));
    NestedText(key, inner, innerKey, text);
    NestedPrint(name, key, inner, innerKey, text);
    BundleText(name, [Entry(key, child)]);
  }

  lemma NestedText(key: string, inner: string, innerKey: string, text: string)
    ensures "\n" + key + ": " + (inner + ":{  \n  " + innerKey + ": " + text + ",\n}") + "," ==
            "\n" + ((key + ": " + inner + ":{  ") + "\n" + (("  " + innerKey + ": " + text + ",") + "\n" + "},"))
  {
  }

  lemma NestedPrint(name: string, key: string, inner: string, innerKey: string, text: string)
    ensures var first, second := "  " + (key + ": " + inner + ":{  "), "  " + ("  " + innerKey + ": " + text + ",");
            name + ":{" + ("  \n" + (first + "\n" + (second + "\n" + ("  " + "},")))) + "\n}" ==
            name + ":{  \n  " + key + ": " + inner + ":{  \n    " + innerKey + ": " + text + ",\n  },\n}"
  {
  }

  lemma BundleText(name: string, entries: seq<Entry>)
    ensures TextOf(Bundle(name, entries)) == name + ":{" + PrependIndent(EntriesText(entries)) + "\n}"
  {
    hide PrependIndent, EntriesText;
  }

  lemma NestedLines(key: string, inner: string, innerKey: string, text: string)
    requires OneLine(key) && OneLine(inner) && OneLine(innerKey) && OneLine(text)
    ensures var ls := [key + ": " + inner + ":{  ", "  " + innerKey + ": " + text + ",", "},"];
            AllOneLine(ls) && IndentLines(ls) == ["  " + ls[0], "  " + ls[1], "  " + ls[2]]
  {
    hide OneLine, Blank, IndentLine, Inked;
    var ls := [key + ": " + inner + ":{  ", "  " + innerKey + ": " + text + ",", "},"];
    OneLineLiterals();
    OneLineParts(key, ": ");
    OneLineParts(key + ": ", inner);
    OneLineParts(key + ": " + inner, ":{  ");
    OneLineParts("  ", innerKey);
    OneLineParts("  " + innerKey, ": ");
    OneLineParts("  " + innerKey + ": ", text);
    OneLineParts("  " + innerKey + ": " + text, ",");
    Ink();
    InkedInside(key + ": " + inner, ":{  ", "");
    assert ls[0] + "" == ls[0];
    InkedNotBlank(ls[0]);
    CommaNotBlank("  " + innerKey + ": " + text);
    CommaNotBlank("}");
    assert "}" + "," == "},";
    forall i | 0 <= i < 3 ensures IndentLine(ls[i]) == "  " + ls[i] {
      IndentsByTwo(ls[i]);
    }
  }

  lemma ThreeLines(a: string, b: string, c: string)
    ensures JoinLines([a, b, c]) == a + "\n" + (b + "\n" + c)
  {
    hide JoinLines;
    JoinNext(a, [b, c]);
    JoinNext(b, [c]);
    JoinOne(c);
    assert [a] + [b, c] == [a, b, c] && [b] + [c] == [b, c];
  }
}
