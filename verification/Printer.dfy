/** `printBundle` and `printArray` of the Kotlin client: printers that re-indent the whole
    text of a child, and the lines they really produce. */
module Printer {
  import opened Lines

  /** `text` is what `toString` gives for the value. */
  datatype Tree =
    | Leaf(text: string)
    | Array(text: string, items: seq<Tree>)
    | Bundle(text: string, entries: seq<Entry>)

  datatype Entry = Entry(key: string, value: Tree)

  // ----- the printed text

  /** What an element of `printArray` is printed as. */
  function TextOf(t: Tree): string
    decreases t, 0
  {
    match t
    case Leaf(text) => text
    case Array(_, items) => "[\n" + Blocks(items) + ",\n]"
    case Bundle(text, entries) => text + ":{" + PrependIndent(EntriesText(entries)) + "\n}"
  }

  /** `joinToString` of the re-indented elements, with separator ",\n". */
  function Blocks(items: seq<Tree>): string
    decreases items
  {
    if items == [] then ""
    else if |items| == 1 then PrependIndent(TextOf(items[0]))
    else PrependIndent(TextOf(items[0])) + ",\n" + Blocks(items[1..])
  }

  /** The variable `out` after the entries. */
  function EntriesText(entries: seq<Entry>): string
    decreases entries
  {
    if entries == [] then ""
    else
      var init, last := entries[..|entries| - 1], entries[|entries| - 1];
      EntriesText(init) + EntryText(last.key, last.value)
  }

  function EntryText(key: string, value: Tree): string
    decreases value, 1
  {
    match value
    case Array(_, items) => "\n" + key + ": [" + ElementsText(items) + "\n],"
    case Bundle(_, _) => "\n" + key + ": " + TextOf(value) + ","
    case Leaf(text) => "\n" + key + ": " + text + ","
  }

  function ElementsText(items: seq<Tree>): string {
    if items == [] then ""
    else ElementsText(items[..|items| - 1]) + ("\n  " + items[|items| - 1].text + ",")
  }

  // ----- the printer of bundles, which builds `out` in place

  method PrintBundle(bundle: Tree) returns (r: string)
    requires bundle.Bundle?
    ensures r == TextOf(bundle)
    decreases bundle
  {
    hide EntriesText, ElementsText, PrependIndent;
    var out := "";
    NoEntries();
    var i := 0;
    while i < |bundle.entries|
      invariant 0 <= i <= |bundle.entries|
      invariant out == EntriesText(bundle.entries[..i])
    {
      var key, a := bundle.entries[i].key, bundle.entries[i].value;
      NextEntry(bundle.entries, i);
      if a.Array? {
        ghost var before := out;
        out := out + ("\n" + key + ": [");
        ghost var start := out;
        var j := 0;
        while j < |a.items|
          invariant 0 <= j <= |a.items|
          invariant out == start + ElementsText(a.items[..j])
        {
          out := out + ("\n  " + a.items[j].text + ",");
          NextElement(start, a.items, j);
          j := j + 1;
        }
        out := out + "\n],";
        ClosedArray(before, key, a);
      } else if a.Bundle? {
        var child := PrintBundle(a);
        out := out + ("\n" + key + ": " + child + ",");
      } else {
        out := out + ("\n" + key + ": " + a.text + ",");
      }
      i := i + 1;
    }
    assert bundle.entries[..|bundle.entries|] == bundle.entries;
    r := bundle.text + ":{" + PrependIndent(out) + "\n}";
  }

  lemma NoEntries()
    ensures EntriesText([]) == "" && ElementsText([]) == ""
  {
  }

  lemma NextEntry(entries: seq<Entry>, i: nat)
    requires i < |entries|
    ensures EntriesText(entries[..i + 1]) == EntriesText(entries[..i]) + EntryText(entries[i].key, entries[i].value)
  {
    hide EntryText;
    assert entries[..i + 1][..i] == entries[..i];
  }

  lemma NextElement(start: string, items: seq<Tree>, j: nat)
    requires j < |items|
    ensures start + ElementsText(items[..j + 1]) ==
            start + ElementsText(items[..j]) + ("\n  " + items[j].text + ",")
  {
    assert items[..j + 1][..j] == items[..j];
  }

  lemma ClosedArray(before: string, key: string, a: Tree)
    requires a.Array?
    ensures before + ("\n" + key + ": [") + ElementsText(a.items[..|a.items|]) + "\n]," == before + EntryText(key, a)
  {
    hide ElementsText;
    assert a.items[..|a.items|] == a.items;
  }
}
