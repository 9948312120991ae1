/** Trees that the printers draw wrongly, and the simple condition for texts without line
    breaks. */
module PrinterExamples {
  import opened Lines
  import opened Printer
  import opened Indentation
  import opened Outline

  predicate OneLineTexts(t: Tree)
    decreases t
  {
    OneLine(t.text) &&
    match t
    case Leaf(_) => true
    case Array(_, items) => AllOneLineTexts(items)
    case Bundle(_, entries) => OneLineEntries(entries)
  }

  predicate AllOneLineTexts(items: seq<Tree>)
    decreases items
  {
    forall i | 0 <= i < |items| :: OneLineTexts(items[i])
  }

  predicate OneLineEntries(entries: seq<Entry>)
    decreases entries
  {
    forall i | 0 <= i < |entries| :: OneLine(entries[i].key) && OneLineTexts(entries[i].value)
  }

  /** Every leaf that `printArray` prints is empty or not blank. */
  predicate NoBlankItems(items: seq<Tree>)
    decreases items
  {
    items == [] || (NoBlankItem(items[0]) && NoBlankItems(items[1..]))
  }

  predicate NoBlankItem(t: Tree)
    decreases t
  {
    match t
    case Leaf(text) => !Blank(text) || text == ""
    case Array(_, items) => NoBlankItems(items)
    case Bundle(_, _) => true
  }

  lemma HeadDrawable(a: string, literal: string, b: string, d: nat)
    requires OneLine(a) && OneLine(b) && OneLine(literal) && !Blank(literal)
    ensures AllDrawable(LinesOf(a + literal + b), d)
  {
    OneLineParts(a, literal);
    OneLineParts(a + literal, b);
    LinesOfOne(a + literal + b);
    NotBlankInside(a, literal, b);
  }

  lemma Punctuation()
    ensures !Blank(":{  ") && !Blank(": ") && !Blank(": [") && OneLine(":{  ") && OneLine(": ") && OneLine(": [")
    ensures OneLine("") && OneLine(",")
  {
    assert !IsWhitespace(":{  "[0]) && !IsWhitespace(": "[0]) && !IsWhitespace(": ["[0]);
  }

  lemma {:induction false} OneLineElementsHold(items: seq<Tree>)
    requires AllOneLineTexts(items)
    ensures OneLineElements(items)
  {
    if items == [] {
    } else {
      OneLineElementsHold(items[..|items| - 1]);
    }
  }

  lemma {:induction false} OneLineEntriesDrawable(entries: seq<Entry>, d: nat)
    requires OneLineEntries(entries)
    ensures DrawableEntries(entries, d)
    decreases entries
  {
    hide OneLine, LinesOf, AllDrawable, Blank;
    if entries == [] {
    } else {
      var key, value := entries[|entries| - 1].key, entries[|entries| - 1].value;
      OneLineEntriesDrawable(entries[..|entries| - 1], d);
      Punctuation();
      match value {
        case Leaf(text) =>
          OneLineParts(text, ",");
          HeadDrawable(key, ": ", text + ",", d);
          assert key + ": " + (text + ",") == key + ": " + text + ",";
        case Array(_, items) =>
          HeadDrawable(key, ": [", "", d);
          assert key + ": [" + "" == key + ": [";
          OneLineElementsHold(items);
        case Bundle(text, entries) =>
          OneLineParts(text, ":{  ");
          HeadDrawable(key, ": ", text + ":{  ", d);
          assert key + ": " + (text + ":{  ") == key + ": " + text + ":{  ";
          OneLineEntriesDrawable(entries, d + 1);
      }
    }
  }

  /** Without line breaks in the texts an array is drawn right if and only if no leaf that
      `printArray` prints is non-empty white space; a bundle always is. */
  lemma {:induction false} OneLineDrawable(t: Tree, d: nat)
    requires OneLineTexts(t) && !t.Leaf?
    ensures Drawable(t, d) <==> NoBlankItem(t)
    decreases t, 0
  {
    hide OneLine, LinesOf, AllDrawable, Blank;
    match t
    case Array(_, items) => OneLineItemsDrawable(items, d);
    case Bundle(text, entries) =>
      Punctuation();
      HeadDrawable(text, ":{  ", "", d);
      assert text + ":{  " + "" == text + ":{  ";
      OneLineEntriesDrawable(entries, d + 1);
  }

  lemma {:induction false} OneLineItemsDrawable(items: seq<Tree>, d: nat)
    requires AllOneLineTexts(items)
    ensures DrawableItems(items, d) <==> NoBlankItems(items)
    decreases items
  {
    hide OneLine, LinesOf, Blank;
    if items == [] {
    } else {
      OneLineItemsDrawable(items[1..], d);
      var t := items[0];
      assert OneLineTexts(t);
      if t.Leaf? {
        LinesOfOne(t.text);
        assert LineDrawable(t.text, 1) <==> !Blank(t.text) || t.text == "";
      } else {
        OneLineDrawable(t, d + 1);
      }
    }
  }

  // ----- the inputs that are drawn wrongly

  lemma BlankLeafIsMisplaced()
    ensures var t := Array("", [Leaf(" ")]);
            TextOf(t) == "[\n  ,\n]" && !Drawable(t, 0) && LinesOf(TextOf(t)) != Rendered(Outlined(t, 0))
  {
    var t := Array("", [Leaf(" ")]);
    assert OneLine(" ") && Blank(" ");
    LinesOfOne(" ");
    assert PrependIndent(TextOf(t.items[0])) == "  " by {
      assert IndentLines([" "]) == ["  "];
    }
    assert TextOf(t) == "[\n" + "  " + ",\n]";
    assert !LineDrawable(" ", 1);
    IndentationIsNesting(t);
  }

  const BROKEN := Leaf("a\nb")
  const BROKEN_ARRAY := Array("", [BROKEN])
  const BROKEN_BUNDLE := Bundle("b", [Entry("k", BROKEN_ARRAY)])

  lemma BrokenElementLines()
    ensures ElementLines([BROKEN]) == ["  a", "b,"]
  {
    LinesOfOne("  a");
    LinesOfOne("b,");
    LinesOfBreak("  a", "b,");
    assert "  " + BROKEN.text + "," == "  a" + "\n" + "b,";
    assert [BROKEN][..0] == [] && ElementLines([]) == [];
  }

  lemma BrokenEntryLines()
    ensures EntryLines(BROKEN_BUNDLE.entries) == ["k: [", "  a", "b,", "],"]
  {
    hide LinesOf, ElementLines;
    BrokenElementLines();
    OneLineParts("k", ": [");
    assert OneLine("k: [");
    LinesOfOne("k: [");
    assert "k" + ": [" == "k: [";
    assert LinesOfEntry("k", BROKEN_ARRAY) == ["k: [", "  a", "b,", "],"];
    assert BROKEN_BUNDLE.entries[..0] == [] && EntryLines([]) == [];
  }

  lemma IndentPlain(l: string, k: nat)
    requires k < |l| && !IsWhitespace(l[k])
    ensures IndentLine(l) == "  " + l
  {
  }

  /** The second line of a bundle's array element stands one level too far out. */
  lemma BrokenElementIsMisplaced()
    ensures LinesOf(TextOf(BROKEN_BUNDLE)) == ["b:{  ", "  k: [", "    a", "  b,", "  ],", "}"]
    ensures !Drawable(BROKEN_BUNDLE, 0)
  {
    hide LinesOf, ElementLines, EntryLines, IndentLine, TextOf;
    TextIsLines(BROKEN_BUNDLE);
    BrokenEntryLines();
    assert OneLine("b:{  ");
    LinesOfOne("b:{  ");
    assert "b" + ":{  " == "b:{  ";
    IndentPlain("k: [", 0);
    IndentPlain("  a", 2);
    IndentPlain("b,", 0);
    IndentPlain("],", 0);
    assert "  " + "k: [" == "  k: [" && "  " + "  a" == "    a" && "  " + "b," == "  b," && "  " + "]," == "  ],";
    assert IndentLines(["k: [", "  a", "b,", "],"]) == ["  k: [", "    a", "  b,", "  ],"];
    BrokenElementNotDrawable();
  }

  lemma BrokenElementNotDrawable()
    ensures !Drawable(BROKEN_BUNDLE, 0)
  {
    hide LinesOf, AllDrawable;
    assert BROKEN.text[1] == '\n';
    assert !OneLine(BROKEN.text);
    assert !OneLineElements([BROKEN]);
    assert !DrawableEntry("k", BROKEN_ARRAY, 1);
    assert !DrawableEntries(BROKEN_BUNDLE.entries, 1);
  }

  /** An empty line inside a text never gets deeper than two spaces. */
  lemma EmptyInnerLineIsMisplaced()
    ensures !Drawable(Array("", [Array("", [Leaf("a\n\nb")])]), 0)
  {
    var leaf := Leaf("a\n\nb");
    LinesOfBreak("a", "\nb");
    LinesOfBreak("", "b");
    LinesOfOne("a");
    LinesOfOne("b");
    LinesOfOne("");
    assert "a" + "\n" + "\nb" == leaf.text && "" + "\n" + "b" == "\nb";
    var ls := LinesOf(leaf.text);
    assert ls == ["a", "", "b"];
    assert ls[..2][1] == "" && Blank("") && !LineDrawable("", 2);
    assert !DrawableItem(leaf, 1);
    assert !DrawableItems([leaf], 1);
    assert !DrawableItem(Array("", [leaf]), 0);
  }
}
