/**
 * `prettyString(items, separator)` and the parts of the Kotlin standard
 * library it relies on: `joinToString`, `lineSequence`, `isBlank` and
 * `prependIndent`. Items are given as the strings their `toString` yields.
 */
module Pretty {

  /** `Char.isWhitespace()`: Java whitespace together with the space separators. */
  predicate IsWhitespace(c: char)
  {
    || c == '\t' || c == '\n' || c == '\U{000B}' || c == '\U{000C}' || c == '\r'
    || ('\U{001C}' <= c <= '\U{001F}') || c == ' ' || c == '\U{00A0}' || c == '\U{1680}'
    || ('\U{2000}' <= c <= '\U{200A}') || c == '\U{2028}' || c == '\U{2029}'
    || c == '\U{202F}' || c == '\U{205F}' || c == '\U{3000}'
  }

  /** `isBlank()`: empty or all whitespace. */
  predicate IsBlank(s: string)
  {
    forall i :: 0 <= i < |s| ==> IsWhitespace(s[i])
  }

  predicate IsLineBreak(c: char)
  {
    c == '\n' || c == '\r'
  }

  predicate NoLineBreaks(s: string)
  {
    forall i :: 0 <= i < |s| ==> !IsLineBreak(s[i])
  }

  /** `joinToString(separator)`. */
  function JoinToString(parts: seq<string>, separator: string): string
  {
    if parts == [] then ""
    else if |parts| == 1 then parts[0]
    else parts[0] + separator + JoinToString(parts[1..], separator)
  }

  /** `lineSequence()`: the lines between `\r\n`, `\n` and `\r`; always at least one. */
  function Lines(s: string): (ls: seq<string>)
    ensures |ls| >= 1
    ensures forall i :: 0 <= i < |ls| ==> NoLineBreaks(ls[i])
    decreases |s|
  {
    if s == [] then [""]
    else if s[0] == '\n' then [""] + Lines(s[1..])
    else if s[0] == '\r' then
      if |s| > 1 && s[1] == '\n' then [""] + Lines(s[2..]) else [""] + Lines(s[1..])
    else
      var rest := Lines(s[1..]);
      [[s[0]] + rest[0]] + rest[1..]
  }

  /** One line of `prependIndent(indent)`. */
  function IndentLine(line: string, indent: string): (r: string)
    ensures !IsBlank(line) ==> r == indent + line
    ensures IsBlank(line) && |line| < |indent| ==> r == indent
    ensures IsBlank(line) && |line| >= |indent| ==> r == line
  {
    if IsBlank(line) then (if |line| < |indent| then indent else line)
    else indent + line
  }

  function IndentLines(lines: seq<string>, indent: string): (r: seq<string>)
    ensures |r| == |lines| && forall i :: 0 <= i < |lines| ==> r[i] == IndentLine(lines[i], indent)
  {
    seq(|lines|, i requires 0 <= i < |lines| => IndentLine(lines[i], indent))
  }

  /** `prependIndent(indent)`: each line indented, rejoined with `\n`. */
  function PrependIndent(s: string, indent: string): string
  {
    JoinToString(IndentLines(Lines(s), indent), "\n")
  }

  /** `prettyString(items, separator)`. */
  function PrettyString(items: seq<string>, separator: string): string
  {
    if items == [] then "{}"
    else "{\n" + PrependIndent(JoinToString(items, separator + "\n"), "    ") + separator + "\n}"
  }

  // ---------------------------------------------------------------------
  // Lines and joins
  // ---------------------------------------------------------------------

  lemma {:induction false} LinesOfUnbroken(s: string, tail: string)
    requires NoLineBreaks(s) && (tail == [] || tail[0] == '\n')
    ensures Lines(s + tail) == [s + Lines(tail)[0]] + Lines(tail)[1..]
    decreases |s|
  {
    if s == [] {
      assert s + tail == tail;
    } else {
      assert (s + tail)[1..] == s[1..] + tail;
      LinesOfUnbroken(s[1..], tail);
      assert [s[0]] + (s[1..] + Lines(tail)[0]) == s + Lines(tail)[0];
    }
  }

  /** Joining lines without breaks with `\n` and splitting them again gives them back. */
  lemma {:induction false} LinesOfJoin(ls: seq<string>)
    requires |ls| >= 1 && forall i :: 0 <= i < |ls| ==> NoLineBreaks(ls[i])
    ensures Lines(JoinToString(ls, "\n")) == ls
  {
    if |ls| == 1 {
      LinesOfUnbroken(ls[0], "");
      assert ls[0] + "" == ls[0];
    } else {
      var tail := "\n" + JoinToString(ls[1..], "\n");
      LinesOfJoin(ls[1..]);
      assert Lines(tail) == [""] + ls[1..] by {
        assert tail[1..] == JoinToString(ls[1..], "\n");
      }
      assert JoinToString(ls, "\n") == ls[0] + tail;
      LinesOfUnbroken(ls[0], tail);
      assert ls[0] + "" == ls[0];
      assert [ls[0]] + ls[1..] == ls;
    }
  }

  /** Splitting text without `\r` into lines and joining them with `\n` gives the text back. */
  lemma {:induction false} JoinOfLines(s: string)
    requires forall i :: 0 <= i < |s| ==> s[i] != '\r'
    ensures JoinToString(Lines(s), "\n") == s
    decreases |s|
  {
    if s != [] {
      JoinOfLines(s[1..]);
      var rest := Lines(s[1..]);
      if s[0] == '\n' {
        assert JoinToString([""] + rest, "\n") == "" + "\n" + JoinToString(rest, "\n");
      } else {
        JoinHeadExtend([s[0]], rest);
      }
    }
  }

  lemma JoinHeadExtend(c: string, rest: seq<string>)
    requires |rest| >= 1
    ensures JoinToString([c + rest[0]] + rest[1..], "\n") == c + JoinToString(rest, "\n")
  {
    var ls := [c + rest[0]] + rest[1..];
    if |rest| == 1 {
      assert ls == [c + rest[0]];
    } else {
      assert ls[0] == c + rest[0] && ls[1..] == rest[1..] && |ls| > 1;
      var j := JoinToString(rest[1..], "\n");
      assert JoinToString(ls, "\n") == (c + rest[0]) + "\n" + j;
      assert JoinToString(rest, "\n") == rest[0] + "\n" + j;
      Associative(c + rest[0], "\n", j);
      Associative(c, rest[0], "\n" + j);
      Associative(rest[0], "\n", j);
    }
  }

  lemma Associative(a: string, b: string, c: string)
    ensures a + b + c == a + (b + c)
  {
  }

  /** The lines `items.joinToString(separator + "\n")` splits into. */
  function ItemLines(items: seq<string>, separator: string): (ls: seq<string>)
    requires |items| >= 1
    ensures |ls| == |items|
    ensures forall i :: 0 <= i < |items| - 1 ==> ls[i] == items[i] + separator
    ensures ls[|items| - 1] == items[|items| - 1]
  {
    seq(|items|, i requires 0 <= i < |items| => if i < |items| - 1 then items[i] + separator else items[i])
  }

  lemma ItemLinesUnbroken(items: seq<string>, separator: string)
    requires |items| >= 1
    requires forall i :: 0 <= i < |items| ==> NoLineBreaks(items[i])
    requires NoLineBreaks(separator)
    ensures forall i :: 0 <= i < |items| ==> NoLineBreaks(ItemLines(items, separator)[i])
  {
    var ls := ItemLines(items, separator);
    forall i | 0 <= i < |ls| ensures NoLineBreaks(ls[i]) {
      if i < |items| - 1 {
        assert forall k :: |items[i]| <= k < |ls[i]| ==> ls[i][k] == separator[k - |items[i]|];
      }
    }
  }

  lemma {:induction false} JoinAsLines(items: seq<string>, separator: string)
    requires |items| >= 1
    ensures JoinToString(items, separator + "\n") == JoinToString(ItemLines(items, separator), "\n")
  {
    if |items| > 1 {
      JoinAsLines(items[1..], separator);
      assert ItemLines(items, separator)[1..] == ItemLines(items[1..], separator);
    }
  }

  // ---------------------------------------------------------------------
  // prettyString
  // ---------------------------------------------------------------------

  /** One entry per item: indented, followed by the separator and a line break. */
  function Block(items: seq<string>, separator: string): string
  {
    if items == [] then "" else "    " + items[0] + separator + "\n" + Block(items[1..], separator)
  }

  lemma ItemLinesNotBlank(items: seq<string>, separator: string)
    requires |items| >= 1
    requires forall i :: 0 <= i < |items| ==> !IsBlank(items[i])
    ensures forall i :: 0 <= i < |items| ==> !IsBlank(ItemLines(items, separator)[i])
  {
    var ls := ItemLines(items, separator);
    forall i | 0 <= i < |items| ensures !IsBlank(ls[i]) {
      var k :| 0 <= k < |items[i]| && !IsWhitespace(items[i][k]);
      assert ls[i][k] == items[i][k];
    }
  }

  lemma {:induction false} IndentedBlock(items: seq<string>, separator: string)
    requires |items| >= 1
    requires forall i :: 0 <= i < |items| ==> !IsBlank(items[i])
    ensures JoinToString(IndentLines(ItemLines(items, separator), "    "), "\n") + separator + "\n"
         == Block(items, separator)
  {
    ItemLinesNotBlank(items, separator);
    var ls := ItemLines(items, separator);
    var il := IndentLines(ls, "    ");
    if |items| == 1 {
      assert il == ["    " + items[0]];
      assert Block(items, separator) == "    " + items[0] + separator + "\n" + "";
    } else {
      var first := "    " + items[0] + separator;
      assert il[0] == first;
      assert ItemLines(items, separator)[1..] == ItemLines(items[1..], separator);
      assert il[1..] == IndentLines(ItemLines(items[1..], separator), "    ");
      IndentedBlock(items[1..], separator);
      var rest := JoinToString(il[1..], "\n");
      assert JoinToString(il, "\n") == first + "\n" + rest;
      assert rest + separator + "\n" == Block(items[1..], separator);
      Associative(first + "\n" + rest, separator, "\n");
      Associative(first + "\n", rest, separator);
      Associative(first + "\n", rest + separator, "\n");
    }
  }

  /**
   * With items that are not blank and contain no line break, and a
   * separator without line breaks, the text is `{`, then one line per item
   * indented by four spaces and followed by the separator, then `}`. Without
   * items it is `{}`.
   */
  lemma PrettyStringLayout(items: seq<string>, separator: string)
    requires forall i :: 0 <= i < |items| ==> !IsBlank(items[i]) && NoLineBreaks(items[i])
    requires NoLineBreaks(separator)
    ensures items == [] ==> PrettyString(items, separator) == "{}"
    ensures items != [] ==> PrettyString(items, separator) == "{\n" + Block(items, separator) + "}"
  {
    if items != [] {
      var ls := ItemLines(items, separator);
      ItemLinesUnbroken(items, separator);
      JoinAsLines(items, separator);
      LinesOfJoin(ls);
      ItemLinesNotBlank(items, separator);
      IndentedBlock(items, separator);
      var joined := JoinToString(items, separator + "\n");
      assert Lines(joined) == ls;
      var j := JoinToString(IndentLines(ls, "    "), "\n");
      assert PrependIndent(joined, "    ") == j;
      assert PrettyString(items, separator) == "{\n" + j + separator + "\n}";
      assert "\n}" == "\n" + "}";
      calc {
        "{\n" + j + separator + "\n}";
        { Associative("{\n" + j, separator, "\n" + "}");
          Associative("{\n", j, separator + ("\n" + "}"));
          Associative(separator, "\n", "}");
          Associative(j, separator + "\n", "}");
          Associative("{\n", j + (separator + "\n"), "}");
          Associative(j, separator, "\n"); }
        "{\n" + Block(items, separator) + "}";
      }
    }
  }

  // ---------------------------------------------------------------------
  // prettyString of items spanning several lines
  // ---------------------------------------------------------------------

  predicate NoCarriageReturn(s: string)
  {
    forall i :: 0 <= i < |s| ==> s[i] != '\r'
  }

  lemma NoCarriageReturnConcat(a: string, s: string)
    requires NoCarriageReturn(a) && NoLineBreaks(s)
    ensures NoCarriageReturn(a + s)
  {
    forall k | 0 <= k < |a + s| ensures (a + s)[k] != '\r' {
      if k >= |a| { assert (a + s)[k] == s[k - |a|]; }
    }
  }

  /** `s` added to the end of the last line. */
  function AppendToLast(ls: seq<string>, s: string): (r: seq<string>)
    requires |ls| >= 1
    ensures |r| == |ls| && r[..|ls| - 1] == ls[..|ls| - 1] && r[|ls| - 1] == ls[|ls| - 1] + s
  {
    ls[..|ls| - 1] + [ls[|ls| - 1] + s]
  }

  /** The lines of the items one after another, the separator ending the last line of every item but the final one. */
  function BlockLines(items: seq<string>, separator: string): (ls: seq<string>)
    requires |items| >= 1
    ensures |ls| >= |items|
  {
    if |items| == 1 then Lines(items[0])
    else AppendToLast(Lines(items[0]), separator) + BlockLines(items[1..], separator)
  }

  lemma LinesNewline(s: string)
    ensures Lines("\n" + s) == [""] + Lines(s)
  {
    assert ("\n" + s)[1..] == s;
  }

  lemma LinesCons(c: char, s: string)
    requires !IsLineBreak(c)
    ensures Lines([c] + s) == [[c] + Lines(s)[0]] + Lines(s)[1..]
  {
    assert ([c] + s)[1..] == s;
  }

  lemma AppendToLastEmpty(ls: seq<string>)
    requires |ls| >= 1
    ensures AppendToLast(ls, "") == ls
  {
    assert ls[|ls| - 1] + "" == ls[|ls| - 1];
    assert ls[..|ls| - 1] + [ls[|ls| - 1]] == ls;
  }

  lemma AppendToLastCons(h: string, ls: seq<string>, s: string, rest: seq<string>)
    requires |ls| >= 1
    ensures AppendToLast([h] + ls, s) + rest == [h] + (AppendToLast(ls, s) + rest)
  {
    assert ([h] + ls)[..|ls|] == [h] + ls[..|ls| - 1];
  }

  lemma ExtendFirstAppend(c: char, ls: seq<string>, s: string, rest: seq<string>)
    requires |ls| >= 1
    ensures var r := AppendToLast(ls, s) + rest;
      AppendToLast([[c] + ls[0]] + ls[1..], s) + rest == [[c] + r[0]] + r[1..]
  {
    var r := AppendToLast(ls, s) + rest;
    if |ls| == 1 {
      assert r[0] == ls[0] + s && r[1..] == rest;
      assert [c] + ls[0] + s == [c] + (ls[0] + s);
    } else {
      assert r[0] == ls[0] && r[1..] == AppendToLast(ls[1..], s) + rest;
      AppendToLastCons([c] + ls[0], ls[1..], s, rest);
    }
  }

  lemma SplitHead(a: string, t: string)
    requires a != []
    ensures a == [a[0]] + a[1..] && a + t == [a[0]] + (a[1..] + t)
  {
  }

  /** One step of `LinesAppend`: from `a[1..]` to `a`. */
  lemma LinesAppendCons(a: string, t: string)
    requires a != [] && a[0] != '\r'
    requires Lines(a[1..] + t) == AppendToLast(Lines(a[1..]), Lines(t)[0]) + Lines(t)[1..]
    ensures Lines(a + t) == AppendToLast(Lines(a), Lines(t)[0]) + Lines(t)[1..]
  {
    var lt := Lines(t);
    var tail := a[1..];
    SplitHead(a, t);
    if a[0] == '\n' {
      LinesNewline(tail);
      LinesNewline(tail + t);
      AppendToLastCons("", Lines(tail), lt[0], lt[1..]);
    } else {
      LinesCons(a[0], tail);
      LinesCons(a[0], tail + t);
      ExtendFirstAppend(a[0], Lines(tail), lt[0], lt[1..]);
    }
  }

  /** Splitting `a + t` joins the last line of `a` with the first line of `t`. */
  lemma {:induction false} LinesAppend(a: string, t: string)
    requires NoCarriageReturn(a)
    ensures Lines(a + t) == AppendToLast(Lines(a), Lines(t)[0]) + Lines(t)[1..]
    decreases |a|
  {
    if a == [] {
      var lt := Lines(t);
      assert a + t == t && Lines(a) == [""];
      assert "" + lt[0] == lt[0];
      assert AppendToLast(Lines(a), lt[0]) == [lt[0]];
    } else {
      LinesAppend(a[1..], t);
      LinesAppendCons(a, t);
    }
  }

  lemma LinesOfBreakJoin(a: string, b: string)
    requires NoCarriageReturn(a)
    ensures Lines(a + "\n" + b) == Lines(a) + Lines(b)
  {
    var t := "\n" + b;
    assert t[0] == '\n' && t[1..] == b;
    assert Lines(t) == [""] + Lines(b);
    LinesAppend(a, t);
    assert a + "\n" + b == a + t;
    AppendToLastEmpty(Lines(a));
  }

  lemma LinesOfSuffix(a: string, s: string)
    requires NoCarriageReturn(a) && NoLineBreaks(s)
    ensures Lines(a + s) == AppendToLast(Lines(a), s)
  {
    LinesOfUnbroken(s, "");
    assert s + "" == s;
    assert Lines(s) == [s];
    LinesAppend(a, s);
  }

  /** `items.joinToString(separator + "\n")` splits into the items' own lines, as `BlockLines` lays them out. */
  lemma {:induction false} LinesOfItems(items: seq<string>, separator: string)
    requires |items| >= 1
    requires forall i :: 0 <= i < |items| ==> NoCarriageReturn(items[i])
    requires NoLineBreaks(separator)
    ensures Lines(JoinToString(items, separator + "\n")) == BlockLines(items, separator)
  {
    if |items| > 1 {
      var j := JoinToString(items[1..], separator + "\n");
      var first := items[0] + separator;
      assert JoinToString(items, separator + "\n") == first + "\n" + j;
      NoCarriageReturnConcat(items[0], separator);
      LinesOfBreakJoin(first, j);
      LinesOfSuffix(items[0], separator);
      LinesOfItems(items[1..], separator);
    }
  }

  lemma {:induction false} JoinUnbrokenNoCarriageReturn(parts: seq<string>)
    requires forall i :: 0 <= i < |parts| ==> NoLineBreaks(parts[i])
    ensures NoCarriageReturn(JoinToString(parts, "\n"))
  {
    if |parts| > 1 {
      JoinUnbrokenNoCarriageReturn(parts[1..]);
      var rest := JoinToString(parts[1..], "\n");
      var j := parts[0] + "\n" + rest;
      forall k | 0 <= k < |j| ensures j[k] != '\r' {
        if k > |parts[0]| { assert j[k] == rest[k - |parts[0]| - 1]; }
      }
    }
  }

  lemma IndentLinesUnbroken(lines: seq<string>, indent: string)
    requires NoLineBreaks(indent)
    requires forall i :: 0 <= i < |lines| ==> NoLineBreaks(lines[i])
    ensures forall i :: 0 <= i < |lines| ==> NoLineBreaks(IndentLines(lines, indent)[i])
  {
    forall i | 0 <= i < |lines| ensures NoLineBreaks(IndentLines(lines, indent)[i]) {
      var l := lines[i];
      if !IsBlank(l) {
        assert forall k :: |indent| <= k < |indent + l| ==> (indent + l)[k] == l[k - |indent|];
      }
    }
  }

  /** Text without `\r` between the lines `{` and `}`. */
  lemma FramedLines(x: string, separator: string)
    requires NoCarriageReturn(x + separator)
    ensures Lines("{\n" + x + separator + "\n}") == ["{"] + Lines(x + separator) + ["}"]
  {
    var y := x + separator;
    LinesOfBreakJoin(y, "}");
    LinesOfUnbroken("}", "");
    assert "}" + "" == "}";
    LinesOfUnbroken("{", "");
    assert "{" + "" == "{";
    LinesOfBreakJoin("{", y + "\n" + "}");
    assert "{\n" + x + separator + "\n}" == "{" + "\n" + (y + "\n" + "}") by {
      assert "{\n" == "{" + "\n" && "\n}" == "\n" + "}";
      Associative("{\n", x, separator);
      Associative("{\n", y, "\n}");
      Associative(y, "\n", "}");
      Associative("{", "\n", y + ("\n" + "}"));
    }
  }

  /** The indented block, with the separator after it, splits into the indented lines, the separator closing the last. */
  lemma IndentedBlockLines(bl: seq<string>, separator: string)
    requires |bl| >= 1 && forall i :: 0 <= i < |bl| ==> NoLineBreaks(bl[i])
    requires NoLineBreaks(separator)
    ensures var y := JoinToString(IndentLines(bl, "    "), "\n") + separator;
      NoCarriageReturn(y) && Lines(y) == AppendToLast(IndentLines(bl, "    "), separator)
  {
    var il := IndentLines(bl, "    ");
    IndentLinesUnbroken(bl, "    ");
    var x := JoinToString(il, "\n");
    LinesOfJoin(il);
    JoinUnbrokenNoCarriageReturn(il);
    LinesOfSuffix(x, separator);
    NoCarriageReturnConcat(x, separator);
  }

  /**
   * For items and a separator without `\r` (the separator without any line
   * break), the lines of the text are `{`, then every line of every item
   * indented as `prependIndent("    ")` indents it, the separator closing
   * each item's last line, then `}`. An item that spans several lines, such
   * as a nested `prettyString`, has each of its lines indented.
   */
  lemma PrettyStringLines(items: seq<string>, separator: string)
    requires |items| >= 1
    requires forall i :: 0 <= i < |items| ==> NoCarriageReturn(items[i])
    requires NoLineBreaks(separator)
    ensures Lines(PrettyString(items, separator))
         == ["{"] + AppendToLast(IndentLines(BlockLines(items, separator), "    "), separator) + ["}"]
  {
    var bl := BlockLines(items, separator);
    LinesOfItems(items, separator);
    IndentedBlockLines(bl, separator);
    FramedLines(PrependIndent(JoinToString(items, separator + "\n"), "    "), separator);
  }
}
