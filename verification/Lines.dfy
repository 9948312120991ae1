/** Kotlin's view of a text as lines: `lineSequence`, joining, `isBlank` and
    `prependIndent("  ")`. */
module Lines {

  predicate IsWhitespace(c: char) {
    var n := c as int;
    9 <= n <= 13 || 0x1C <= n <= 0x20 || n == 0xA0 || n == 0x1680 || 0x2000 <= n <= 0x200A ||
    n == 0x2028 || n == 0x2029 || n == 0x202F || n == 0x205F || n == 0x3000
  }

  predicate Blank(s: string) {
    forall i | 0 <= i < |s| :: IsWhitespace(s[i])
  }

  predicate OneLine(s: string) {
    '\n' !in s && '\r' !in s
  }

  predicate AllOneLine(ls: seq<string>) {
    forall i | 0 <= i < |ls| :: OneLine(ls[i])
  }

  /** Lines end at "\r\n", "\n" or "\r"; there is always at least one. */
  function LinesOf(s: string): (ls: seq<string>)
    ensures ls != []
    decreases |s|
  {
    if s == "" then [""]
    else if |s| > 1 && s[0] == '\r' && s[1] == '\n' then [""] + LinesOf(s[2..])
    else if s[0] == '\r' || s[0] == '\n' then [""] + LinesOf(s[1..])
    else
      var rest := LinesOf(s[1..]);
      [[s[0]] + rest[0]] + rest[1..]
  }

  function JoinLines(ls: seq<string>): string {
    if ls == [] then ""
    else if |ls| == 1 then ls[0]
    else ls[0] + "\n" + JoinLines(ls[1..])
  }

  function IndentLine(l: string): string {
    if Blank(l) then (if |l| < 2 then "  " else l) else "  " + l
  }

  function IndentLines(ls: seq<string>): (r: seq<string>)
    ensures |r| == |ls|
  {
    seq(|ls|, i requires 0 <= i < |ls| => IndentLine(ls[i]))
  }

  function PrependIndent(s: string): string {
    JoinLines(IndentLines(LinesOf(s)))
  }

  // ----- splitting and joining

  lemma {:induction false} LinesOfOne(l: string)
    requires OneLine(l)
    ensures LinesOf(l) == [l]
  {
    if l == "" {
    } else {
      LinesOfOne(l[1..]);
      assert l[0] in l && l == [l[0]] + l[1..];
    }
  }

  /** Does a line break split in two between these texts? */
  predicate Torn(a: string, b: string) {
    a != "" && a[|a| - 1] == '\r' && b != "" && b[0] == '\n'
  }

  predicate Breaks(c: char) {
    c == '\r' || c == '\n'
  }

  lemma LinesOfCons(c: char, rest: string)
    requires !Torn([c], rest)
    ensures LinesOf([c] + rest) == if Breaks(c) then [""] + LinesOf(rest) else WithFirst([c], LinesOf(rest))
  {
    assert ([c] + rest)[1..] == rest;
  }

  lemma LinesOfCrLf(rest: string)
    ensures LinesOf("\r\n" + rest) == [""] + LinesOf(rest)
  {
    assert ("\r\n" + rest)[2..] == rest;
  }

  /** The lines of two texts in a row: the last line of one runs on into the first of the
      other. */
  function Run(a: seq<string>, b: seq<string>): (r: seq<string>)
    requires a != [] && b != []
    ensures |r| == |a| + |b| - 1
  {
    a[..|a| - 1] + [a[|a| - 1] + b[0]] + b[1..]
  }

  lemma RunOfBreak(a: seq<string>, b: seq<string>)
    requires a != [] && b != []
    ensures Run([""] + a, b) == [""] + Run(a, b)
  {
  }

  lemma RunOfFirst(x: string, a: seq<string>, b: seq<string>)
    requires a != [] && b != []
    ensures Run(WithFirst(x, a), b) == WithFirst(x, Run(a, b))
  {
    if |a| == 1 {
      assert x + a[0] + b[0] == x + (a[0] + b[0]);
    }
  }

  lemma {:induction false} LinesOfConcat(a: string, b: string)
    requires !Torn(a, b)
    ensures LinesOf(a + b) == Run(LinesOf(a), LinesOf(b))
    decreases |a|
  {
    hide LinesOf, Run, WithFirst;
    if a == "" {
      LinesOfNone();
      RunNothing(LinesOf(b));
      assert a + b == b;
    } else if |a| > 1 && a[0] == '\r' && a[1] == '\n' {
      var a' := a[2..];
      assert a == "\r\n" + a' && a + b == "\r\n" + (a' + b);
      LinesOfCrLf(a');
      LinesOfCrLf(a' + b);
      LinesOfConcat(a', b);
      RunOfBreak(LinesOf(a'), LinesOf(b));
    } else {
      var c, a' := a[0], a[1..];
      assert a == [c] + a' && a + b == [c] + (a' + b);
      LinesOfCons(c, a');
      LinesOfCons(c, a' + b);
      LinesOfConcat(a', b);
      RunOfBreak(LinesOf(a'), LinesOf(b));
      RunOfFirst([c], LinesOf(a'), LinesOf(b));
    }
  }

  lemma LinesOfNone()
    ensures LinesOf("") == [""]
  {
  }

  lemma RunNothing(b: seq<string>)
    requires b != []
    ensures Run([""], b) == b
  {
    assert "" + b[0] == b[0];
  }

  /** A "\n" between two texts separates their lines, unless the first ends in "\r". */
  lemma LinesOfBreak(a: string, b: string)
    requires !Torn(a, "\n")
    ensures LinesOf(a + "\n" + b) == LinesOf(a) + LinesOf(b)
  {
    hide LinesOf;
    assert a + "\n" + b == a + (['\n'] + b);
    LinesOfConcat(a, ['\n'] + b);
    LinesOfCons('\n', b);
    var la := LinesOf(a);
    assert la[|la| - 1] + "" == la[|la| - 1];
    assert Run(la, [""] + LinesOf(b)) == la + LinesOf(b);
  }

  lemma LinesOfPrefixed(prefix: string, s: string)
    requires OneLine(prefix)
    ensures LinesOf(prefix + s) == WithFirst(prefix, LinesOf(s))
  {
    hide LinesOf;
    LinesOfOne(prefix);
    LinesOfConcat(prefix, s);
  }

  lemma LinesOfSuffixed(s: string, suffix: string)
    requires OneLine(suffix)
    ensures LinesOf(s + suffix) == WithLast(LinesOf(s), suffix)
  {
    hide LinesOf;
    LinesOfOne(suffix);
    LinesOfConcat(s, suffix);
  }

  lemma {:induction false} LinesAreOneLine(s: string)
    ensures AllOneLine(LinesOf(s))
    decreases |s|
  {
    if s == "" {
    } else {
      if |s| > 1 && s[0] == '\r' && s[1] == '\n' {
        LinesAreOneLine(s[2..]);
      } else {
        LinesAreOneLine(s[1..]);
      }
    }
  }

  lemma {:induction false} LinesOfJoin(ls: seq<string>)
    requires ls != [] && AllOneLine(ls)
    ensures LinesOf(JoinLines(ls)) == ls
  {
    hide LinesOf;
    if |ls| == 1 {
      LinesOfOne(ls[0]);
    } else {
      LinesOfJoin(ls[1..]);
      LinesOfOne(ls[0]);
      LinesOfBreak(ls[0], JoinLines(ls[1..]));
    }
  }

  lemma {:induction false} JoinConcat(a: seq<string>, b: seq<string>)
    requires a != [] && b != []
    ensures JoinLines(a + b) == JoinLines(a) + "\n" + JoinLines(b)
  {
    if |a| == 1 {
      assert (a + b)[1..] == b;
    } else {
      JoinConcat(a[1..], b);
      assert (a + b)[1..] == a[1..] + b;
      assert JoinLines(a + b) == a[0] + "\n" + (JoinLines(a[1..]) + "\n" + JoinLines(b));
    }
  }

  /** A first and a last line around others. */
  lemma JoinFramed(first: string, ls: seq<string>, last: string)
    requires ls != []
    ensures JoinLines([first] + ls + [last]) == first + "\n" + JoinLines(ls) + "\n" + last
  {
    JoinConcat([first], ls);
    JoinConcat([first] + ls, [last]);
  }

  // ----- text put before the first line, or after the last

  function WithFirst(prefix: string, ls: seq<string>): (r: seq<string>)
    requires ls != []
    ensures |r| == |ls|
  {
    [prefix + ls[0]] + ls[1..]
  }

  function WithLast(ls: seq<string>, suffix: string): (r: seq<string>)
    requires ls != []
    ensures |r| == |ls|
  {
    ls[..|ls| - 1] + [ls[|ls| - 1] + suffix]
  }

  lemma JoinWithLast(ls: seq<string>, suffix: string)
    requires ls != []
    ensures JoinLines(WithLast(ls, suffix)) == JoinLines(ls) + suffix
  {
    if |ls| > 1 {
      var init, last := ls[..|ls| - 1], ls[|ls| - 1];
      JoinConcat(init, [last]);
      JoinConcat(init, [last + suffix]);
      assert ls == init + [last];
    }
  }

  lemma OneLineParts(a: string, b: string)
    ensures OneLine(a + b) <==> OneLine(a) && OneLine(b)
  {
    assert forall c :: c in a + b <==> c in a || c in b;
  }

  lemma OneLineIndent(ls: seq<string>)
    requires AllOneLine(ls)
    ensures AllOneLine(IndentLines(ls))
  {
    forall i | 0 <= i < |ls| ensures OneLine(IndentLine(ls[i])) {
      OneLineParts("  ", ls[i]);
    }
  }

  lemma {:induction false} OneLineIff(s: string)
    ensures OneLine(s) <==> |LinesOf(s)| == 1
    decreases |s|
  {
    if s == "" {
    } else {
      assert s == [s[0]] + s[1..];
      if |s| > 1 && s[0] == '\r' && s[1] == '\n' {
      } else {
        OneLineIff(s[1..]);
        assert OneLine(s) <==> s[0] != '\n' && s[0] != '\r' && OneLine(s[1..]) by {
          OneLineParts([s[0]], s[1..]);
        }
      }
    }
  }

  // ----- blank lines

  lemma NotBlankInside(a: string, b: string, c: string)
    requires !Blank(b)
    ensures !Blank(a + b + c)
  {
    var k :| 0 <= k < |b| && !IsWhitespace(b[k]);
    assert (a + b + c)[|a| + k] == b[k];
  }

  /** A non-blank line, or an empty one, is indented by exactly two spaces. */
  lemma IndentsByTwo(l: string)
    ensures IndentLine(l) == "  " + l <==> !Blank(l) || l == ""
  {
    if Blank(l) && l != "" {
      assert |IndentLine(l)| < |"  " + l|;
    }
  }

  function Indented(ls: seq<string>): (r: seq<string>)
    ensures |r| == |ls|
  {
    seq(|ls|, i requires 0 <= i < |ls| => "  " + ls[i])
  }

  lemma SplitEqual<T>(a: seq<T>, b: seq<T>, c: seq<T>, d: seq<T>)
    requires |a| == |c|
    ensures a + b == c + d <==> a == c && b == d
  {
    if a + b == c + d {
      assert a == (a + b)[..|a|] == (c + d)[..|c|] == c;
      assert b == (a + b)[|a|..] == (c + d)[|c|..] == d;
    }
  }
}
