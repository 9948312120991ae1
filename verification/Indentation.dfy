/** The lines of a printed tree, whatever line breaks its texts contain: splitting the text
    gives the lines of the parts, with the lines of a child re-indented at every level. */
module Indentation {
  import opened Lines
  import opened Printer

  // ----- the lines as the code builds them

  function PrintedLines(t: Tree): (ls: seq<string>)
    ensures ls != []
    decreases t, 0
  {
    match t
    case Leaf(text) => LinesOf(text)
    case Array(_, items) => ["["] + BlockLines(items) + ["]"]
    case Bundle(text, entries) => LinesOf(text + ":{  ") + IndentLines(EntryLines(entries)) + ["}"]
  }

  function Block(t: Tree): (ls: seq<string>)
    ensures |ls| == |PrintedLines(t)|
    decreases t, 1
  {
    WithLast(IndentLines(PrintedLines(t)), ",")
  }

  function BlockLines(items: seq<Tree>): (ls: seq<string>)
    ensures ls != []
    decreases items
  {
    if items == [] then [","]
    else if |items| == 1 then Block(items[0])
    else Block(items[0]) + BlockLines(items[1..])
  }

  function EntryLines(entries: seq<Entry>): seq<string>
    decreases entries
  {
    if entries == [] then []
    else
      var last := entries[|entries| - 1];
      EntryLines(entries[..|entries| - 1]) + LinesOfEntry(last.key, last.value)
  }

  function LinesOfEntry(key: string, value: Tree): (ls: seq<string>)
    ensures ls != []
    decreases value, 1
  {
    match value
    case Leaf(text) => LinesOf(key + ": " + text + ",")
    case Array(_, items) => LinesOf(key + ": [") + ElementLines(items) + ["],"]
    case Bundle(text, entries) =>
      LinesOf(key + ": " + text + ":{  ") + IndentLines(EntryLines(entries)) + ["},"]
  }

  function ElementLines(items: seq<Tree>): seq<string> {
    if items == [] then []
    else ElementLines(items[..|items| - 1]) + LinesOf("  " + items[|items| - 1].text + ",")
  }

  // ----- they are the lines of the printed text

  lemma {:induction false} TextIsLines(t: Tree)
    ensures LinesOf(TextOf(t)) == PrintedLines(t)
    decreases t, 0
  {
    hide OneLine, LinesOf, IndentLines, JoinLines, PrependIndent, Blocks, EntriesText, BlockLines, EntryLines;
    match t
    case Leaf(_) =>
    case Array(_, items) =>
      BlocksAreLines(items);
      OneLineLiterals();
      JoinFramed("[", BlockLines(items), "]");
      ArrayShape(Blocks(items));
      LinesOfJoin(PrintedLines(t));
    case Bundle(text, entries) =>
      EntriesAreLines(entries);
      OneLineLiterals();
      BundleShape(text, EntriesText(entries), EntryLines(entries), "");
      assert TextOf(t) + "" == TextOf(t) && "}" + "" == "}";
  }

  lemma OneLineLiterals()
    ensures OneLine("[") && OneLine("]") && OneLine("],") && OneLine(",") && OneLine("}") && OneLine("},")
    ensures OneLine("") && OneLine("  ") && OneLine(":{  ") && OneLine(": [")
  {
  }

  lemma ArrayShape(blocks: string)
    ensures "[" + "\n" + (blocks + ",") + "\n" + "]" == "[\n" + blocks + ",\n]"
  {
  }

  /** Re-indenting `out`, which starts with a line end, and framing it. */
  lemma BundleShape(head: string, out: string, ls: seq<string>, suffix: string)
    requires LinesOf(out) == [""] + ls && OneLine(suffix)
    ensures LinesOf(head + ":{" + PrependIndent(out) + "\n}" + suffix) ==
            LinesOf(head + ":{  ") + IndentLines(ls) + ["}" + suffix]
  {
    hide LinesOf, JoinLines;
    var tail := IndentLines(ls) + ["}" + suffix];
    LinesAreOneLine(out);
    assert forall i | 0 <= i < |ls| :: ls[i] == LinesOf(out)[i + 1];
    OneLineIndent(ls);
    OneLineParts("}", suffix);
    LinesOfJoin(tail);
    FramedTail(IndentLines(ls), "}" + suffix);
    assert IndentLines(LinesOf(out)) == ["  "] + IndentLines(ls);
    var h := head + ":{  ";
    LinesOfBreak(h, JoinLines(tail));
    FrameShape(head, JoinLines(["  "] + IndentLines(ls)), JoinLines(tail), suffix);
    assert LinesOf(h) + tail == LinesOf(h) + IndentLines(ls) + ["}" + suffix];
  }

  lemma FramedTail(ls: seq<string>, last: string)
    ensures JoinLines(["  "] + ls) + "\n" + last == "  " + "\n" + JoinLines(ls + [last])
  {
    JoinConcat(["  "] + ls, [last]);
    JoinConcat(["  "], ls + [last]);
    assert ["  "] + ls + [last] == ["  "] + (ls + [last]);
  }

  lemma FrameShape(head: string, body: string, tail: string, suffix: string)
    requires body + "\n" + ("}" + suffix) == "  " + "\n" + tail
    ensures head + ":{" + body + "\n}" + suffix == head + ":{  " + "\n" + tail
  {
    assert head + ":{" + body + "\n}" + suffix == head + ":{" + (body + "\n" + ("}" + suffix));
    assert head + ":{" + ("  " + "\n" + tail) == head + ":{  " + "\n" + tail;
  }

  lemma {:induction false} BlocksAreLines(items: seq<Tree>)
    ensures Blocks(items) + "," == JoinLines(BlockLines(items)) && AllOneLine(BlockLines(items))
    decreases items
  {
    hide OneLine, LinesOf, TextOf, PrintedLines, IndentLines, JoinLines, Block;
    OneLineLiterals();
    if items == [] {
      JoinOne(",");
    } else {
      BlockIsLines(items[0]);
      if |items| > 1 {
        BlocksAreLines(items[1..]);
        JoinConcat(Block(items[0]), BlockLines(items[1..]));
        SeparatorShape(PrependIndent(TextOf(items[0])), Blocks(items[1..]));
      }
    }
  }

  lemma {:induction false} BlockIsLines(t: Tree)
    ensures PrependIndent(TextOf(t)) + "," == JoinLines(Block(t)) && AllOneLine(Block(t))
    decreases t, 1
  {
    hide OneLine, LinesOf, TextOf, PrintedLines, IndentLines, JoinLines;
    TextIsLines(t);
    var ls := IndentLines(PrintedLines(t));
    JoinWithLast(ls, ",");
    LinesAreOneLine(TextOf(t));
    OneLineIndent(PrintedLines(t));
    OneLineLiterals();
    OneLineParts(ls[|ls| - 1], ",");
  }

  lemma JoinOne(l: string)
    ensures JoinLines([l]) == l
  {
  }

  lemma SeparatorShape(a: string, b: string)
    ensures a + ",\n" + b + "," == (a + ",") + "\n" + (b + ",")
  {
  }

  predicate EndsInComma(s: string) {
    s != "" && s[|s| - 1] == ','
  }

  lemma {:induction false} EntriesAreLines(entries: seq<Entry>)
    ensures LinesOf(EntriesText(entries)) == [""] + EntryLines(entries)
    ensures EntriesText(entries) == "" || EndsInComma(EntriesText(entries))
    decreases entries
  {
    hide LinesOf, LinesOfEntry, EntryText;
    if entries == [] {
      OneLineLiterals();
      LinesOfOne("");
    } else {
      var init, last := entries[..|entries| - 1], entries[|entries| - 1];
      EntriesAreLines(init);
      var rest := EntryIsLines(last.key, last.value);
      LinesOfBreak(EntriesText(init), rest);
      assert EntriesText(init) + ("\n" + rest) == EntriesText(init) + "\n" + rest;
      assert EntriesText(entries) == EntriesText(init) + "\n" + rest;
      assert [""] + EntryLines(entries) == [""] + EntryLines(init) + LinesOfEntry(last.key, last.value);
    }
  }

  /** An entry is printed behind a line end; `rest` is what follows it. */
  lemma {:induction false} EntryIsLines(key: string, value: Tree) returns (rest: string)
    ensures EntryText(key, value) == "\n" + rest && EndsInComma(rest)
    ensures LinesOf(rest) == LinesOfEntry(key, value)
    decreases value, 1
  {
    hide LinesOf, PrependIndent, IndentLines, ElementsText, ElementLines;
    match value
    case Leaf(text) =>
      rest := key + ": " + text + ",";
      KeyShape(key, text);
    case Bundle(text, entries) =>
      rest := key + ": " + TextOf(value) + ",";
      KeyShape(key, TextOf(value));
      EntriesAreLines(entries);
      OneLineLiterals();
      BundleShape(key + ": " + text, EntriesText(entries), EntryLines(entries), ",");
      HeadShape(key, text, PrependIndent(EntriesText(entries)));
      assert "}" + "," == "},";
    case Array(_, items) =>
      var head := key + ": [";
      rest := head + ElementsText(items) + "\n" + "],";
      VectorShape(key, ElementsText(items));
      ElementsAreLines(head, items);
      OneLineLiterals();
      LinesOfBreak(head + ElementsText(items), "],");
      LinesOfOne("],");
  }

  lemma KeyShape(key: string, text: string)
    ensures "\n" + key + ": " + text + "," == "\n" + (key + ": " + text + ",")
  {
  }

  lemma HeadShape(key: string, text: string, body: string)
    ensures key + ": " + (text + ":{" + body + "\n}") + "," == key + ": " + text + ":{" + body + "\n}" + ","
  {
  }

  lemma VectorShape(key: string, elements: string)
    ensures "\n" + key + ": [" + elements + "\n]," == "\n" + (key + ": [" + elements + "\n" + "],")
  {
  }

  lemma {:induction false} ElementsAreLines(head: string, items: seq<Tree>)
    requires head != "" && head[|head| - 1] == '['
    ensures LinesOf(head + ElementsText(items)) == LinesOf(head) + ElementLines(items)
    ensures ElementsText(items) == "" || EndsInComma(ElementsText(items))
  {
    hide LinesOf;
    if items == [] {
      assert head + "" == head;
    } else {
      var init, text := items[..|items| - 1], items[|items| - 1].text;
      var line := "  " + text + ",";
      ElementsAreLines(head, init);
      var before := head + ElementsText(init);
      LinesOfBreak(before, line);
      assert head + (ElementsText(init) + ("\n  " + text + ",")) == before + "\n" + line;
      assert LinesOf(head) + ElementLines(init) + LinesOf(line) == LinesOf(head) + ElementLines(items);
    }
  }
}
