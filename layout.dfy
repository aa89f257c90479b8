/** How the reference text is laid out in the screenshot: the text is split
    into lines at '\n', and character j of line i occupies the cell whose
    top-left corner is (x + j * width, y + i * height). */
module Layout {

  /** Splitting at every '\n', as the string method split('\n') does:
      the result always has one more element than `s` has line breaks. */
  function Split(s: string): (lines: seq<string>)
    ensures |lines| >= 1
  {
    if |s| == 0 then [""]
    else
      var rest := Split(s[1..]);
      if s[0] == '\n' then [""] + rest
      else [[s[0]] + rest[0]] + rest[1..]
  }

  /** The lines glued back together with '\n' between neighbours. */
  function Join(lines: seq<string>): string
  {
    if |lines| == 0 then ""
    else if |lines| == 1 then lines[0]
    else lines[0] + "\n" + Join(lines[1..])
  }

  /** No line produced by Split holds a line break. */
  lemma {:induction false} SplitLinesHaveNoBreak(s: string)
    ensures forall i :: 0 <= i < |Split(s)| ==> '\n' !in Split(s)[i]
  {
    if |s| > 0 {
      SplitLinesHaveNoBreak(s[1..]);
    }
  }

  /** Concatenation regrouped, stated once so that each proof that needs it
      names the instance instead of leaving the solver to find it. */
  lemma Associative(a: string, b: string, c: string)
    ensures (a + b) + c == a + (b + c)
  {
  }

  /** Prefixing a character to the first line prefixes it to the joined
      text. */
  lemma JoinCons(c: char, lines: seq<string>)
    requires |lines| > 0
    ensures Join([[c] + lines[0]] + lines[1..]) == [c] + Join(lines)
  {
    var first := [c] + lines[0];
    var rest := lines[1..];
    var cons := [first] + rest;
    assert cons[0] == first && cons[1..] == rest;
    if |rest| > 0 {
      var broken := lines[0] + "\n";
      assert Join(cons) == first + "\n" + Join(rest);
      assert Join(lines) == broken + Join(rest);
      Associative([c], lines[0], "\n");
      Associative([c], broken, Join(rest));
    }
  }

  /** Joining the lines of `s` gives `s` back. */
  lemma {:induction false} JoinSplit(s: string)
    ensures Join(Split(s)) == s
  {
    if |s| > 0 {
      var rest := Split(s[1..]);
      JoinSplit(s[1..]);
      if s[0] == '\n' {
        assert ([""] + rest)[1..] == rest;
        assert s == "\n" + s[1..];
      } else {
        JoinCons(s[0], rest);
        assert s == [s[0]] + s[1..];
      }
    }
  }

  /** A line without breaks, followed by a break, splits off as one line. */
  lemma {:induction false} SplitBreak(l: string, s: string)
    requires '\n' !in l
    ensures Split(l + "\n" + s) == [l] + Split(s)
  {
    if |l| == 0 {
      assert l + "\n" + s == "\n" + s;
      assert ("\n" + s)[1..] == s;
    } else {
      SplitBreak(l[1..], s);
      assert (l + "\n" + s)[1..] == l[1..] + "\n" + s;
      assert l == [l[0]] + l[1..];
    }
  }

  /** A line without breaks splits into itself alone. */
  lemma {:induction false} SplitLine(l: string)
    requires '\n' !in l
    ensures Split(l) == [l]
  {
    if |l| > 0 {
      SplitLine(l[1..]);
      assert l == [l[0]] + l[1..];
    }
  }

  /** Splitting undoes joining, for a non-empty list of break-free lines. */
  lemma {:induction false} SplitJoin(lines: seq<string>)
    requires |lines| > 0
    requires forall i :: 0 <= i < |lines| ==> '\n' !in lines[i]
    ensures Split(Join(lines)) == lines
  {
    if |lines| == 1 {
      SplitLine(lines[0]);
    } else {
      SplitJoin(lines[1..]);
      SplitBreak(lines[0], Join(lines[1..]));
      assert lines == [lines[0]] + lines[1..];
    }
  }

  /** Appending a line adds a break and the line. */
  lemma {:induction false} JoinAppend(lines: seq<string>, b: string)
    requires |lines| > 0
    ensures Join(lines + [b]) == Join(lines) + "\n" + b
  {
    if |lines| > 1 {
      JoinAppend(lines[1..], b);
      assert (lines + [b])[1..] == lines[1..] + [b];
    }
  }

  /** Appending a line and then the empty line after a final '\n' extends
      the joined text by that line and a '\n'. */
  lemma JoinTerminated(lines: seq<string>, b: string)
    ensures Join(lines + [b] + [""]) == Join(lines + [""]) + b + "\n"
  {
    if |lines| == 0 {
      assert lines + [b] + [""] == [b, ""];
      assert [b, ""][1..] == [""];
    } else {
      JoinAppend(lines + [b], "");
      JoinAppend(lines, b);
      JoinAppend(lines, "");
    }
  }

  /** The characters of `s` other than '\n', in order. */
  function RemoveBreaks(s: string): (r: string)
    ensures '\n' !in r
    ensures forall c :: c in r <==> c in s && c != '\n'
  {
    if |s| == 0 then ""
    else if s[0] == '\n' then RemoveBreaks(s[1..])
    else [s[0]] + RemoveBreaks(s[1..])
  }

  /** The lines glued together with nothing between them. */
  function Concat(lines: seq<string>): string
  {
    if |lines| == 0 then "" else lines[0] + Concat(lines[1..])
  }

  lemma {:induction false} ConcatAppend(lines: seq<string>, b: string)
    ensures Concat(lines + [b]) == Concat(lines) + b
  {
    if |lines| > 0 {
      ConcatAppend(lines[1..], b);
      assert (lines + [b])[1..] == lines[1..] + [b];
    }
  }

  /** Gluing two lists of lines glues their concatenations. */
  lemma {:induction false} ConcatAll(a: seq<string>, b: seq<string>)
    ensures Concat(a + b) == Concat(a) + Concat(b)
  {
    if |a| == 0 {
      assert a + b == b;
    } else {
      ConcatAll(a[1..], b);
      assert (a + b)[1..] == a[1..] + b;
      Associative(a[0], Concat(a[1..]), Concat(b));
    }
  }

  /** Every character of the concatenation comes from one of the lines. */
  lemma {:induction false} InConcat(lines: seq<string>, c: char)
    requires c in Concat(lines)
    ensures exists l :: 0 <= l < |lines| && c in lines[l]
  {
    if c !in lines[0] {
      InConcat(lines[1..], c);
      var l :| 0 <= l < |lines[1..]| && c in lines[1..][l];
      assert lines[1..][l] == lines[l + 1];
    }
  }

  /** The lines of `s` hold, in order, exactly its characters other than '\n'. */
  lemma {:induction false} ConcatSplit(s: string)
    ensures Concat(Split(s)) == RemoveBreaks(s)
  {
    if |s| > 0 {
      ConcatSplit(s[1..]);
      var rest := Split(s[1..]);
      if s[0] != '\n' {
        assert rest == [rest[0]] + rest[1..];
        assert Concat(rest) == rest[0] + Concat(rest[1..]);
      }
    }
  }

  /** One character of the reference text and the top-left corner of its cell. */
  datatype Placement = Placement(symbol: char, x: nat, y: nat)

  /** The cells of one line whose first character sits at (x, y). */
  function LinePlacements(line: string, width: nat, x: nat, y: nat): seq<Placement>
  {
    seq(|line|, j requires 0 <= j < |line| => Placement(line[j], x + j * width, y))
  }

  /** The cells of every line, line after line, each line `height` lower. */
  function Placements(lines: seq<string>, width: nat, height: nat, x: nat, y: nat): seq<Placement>
  {
    if |lines| == 0 then []
    else Placements(lines[..|lines| - 1], width, height, x, y)
         + LinePlacements(lines[|lines| - 1], width, x, y + (|lines| - 1) * height)
  }

  /** The cells of the reference text `entered`, in reading order. */
  function TextCells(entered: string, width: nat, height: nat, x: nat, y: nat): seq<Placement>
  {
    Placements(Split(entered), width, height, x, y)
  }

  function Symbols(ps: seq<Placement>): seq<char>
  {
    seq(|ps|, i requires 0 <= i < |ps| => ps[i].symbol)
  }

  lemma SymbolsAppend(a: seq<Placement>, b: seq<Placement>)
    ensures Symbols(a + b) == Symbols(a) + Symbols(b)
  {
  }

  lemma LineSymbols(line: string, width: nat, x: nat, y: nat)
    ensures Symbols(LinePlacements(line, width, x, y)) == line
  {
  }

  /** Placements visit the characters of the lines in reading order. */
  lemma {:induction false} PlacementSymbols(lines: seq<string>, width: nat, height: nat, x: nat, y: nat)
    ensures Symbols(Placements(lines, width, height, x, y)) == Concat(lines)
  {
    if |lines| > 0 {
      var init := lines[..|lines| - 1];
      var last := lines[|lines| - 1];
      var top: nat := y + |init| * height;
      PlacementSymbols(init, width, height, x, y);
      ConcatAppend(init, last);
      assert lines == init + [last];
      SymbolsAppend(Placements(init, width, height, x, y), LinePlacements(last, width, x, top));
      LineSymbols(last, width, x, top);
    }
  }

  /** The text's cells carry exactly its characters other than '\n', in order. */
  lemma LayoutSymbols(entered: string, width: nat, height: nat, x: nat, y: nat)
    ensures Symbols(TextCells(entered, width, height, x, y)) == RemoveBreaks(entered)
  {
    PlacementSymbols(Split(entered), width, height, x, y);
    ConcatSplit(entered);
  }

  /** Character j of line i is sampled at (x + j * width, y + i * height);
      it is preceded by the characters of the earlier lines. */
  lemma {:induction false} PlacementAt(lines: seq<string>, width: nat, height: nat, x: nat, y: nat, i: nat, j: nat)
    requires i < |lines| && j < |lines[i]|
    ensures |Concat(lines[..i])| + j < |Placements(lines, width, height, x, y)|
    ensures Placements(lines, width, height, x, y)[|Concat(lines[..i])| + j]
            == Placement(lines[i][j], x + j * width, y + i * height)
  {
    var n := |lines|;
    var init := lines[..n - 1];
    PlacementSymbols(init, width, height, x, y);
    if i < n - 1 {
      PlacementAt(init, width, height, x, y, i, j);
      assert init[..i] == lines[..i];
    } else {
      assert init == lines[..i];
    }
  }

  /** Character j of line i is at position |Concat(lines[..i])| + j of the
      cells; when it occurs neither later in its line nor in a later line, no
      later cell carries it. */
  lemma LastOccurrence(lines: seq<string>, width: nat, height: nat, x: nat, y: nat, i: nat, j: nat)
    requires i < |lines| && j < |lines[i]|
    requires lines[i][j] !in lines[i][j + 1..]
    requires forall l :: i < l < |lines| ==> lines[i][j] !in lines[l]
    ensures var ps := Placements(lines, width, height, x, y);
            var k := |Concat(lines[..i])| + j;
            && k < |ps|
            && ps[k] == Placement(lines[i][j], x + j * width, y + i * height)
            && forall m :: k < m < |ps| ==> ps[m].symbol != lines[i][j]
  {
    var ps := Placements(lines, width, height, x, y);
    var c := lines[i][j];
    var pre := Concat(lines[..i]);
    var rest := Concat(lines[i + 1..]);
    PlacementAt(lines, width, height, x, y, i, j);
    PlacementSymbols(lines, width, height, x, y);
    assert lines == lines[..i] + [lines[i]] + lines[i + 1..];
    ConcatAll(lines[..i] + [lines[i]], lines[i + 1..]);
    ConcatAll(lines[..i], [lines[i]]);
    assert Concat([lines[i]]) == lines[i];
    assert Concat(lines) == pre + lines[i] + rest;
    forall m | |pre| + j < m < |ps|
      ensures ps[m].symbol != c
    {
      assert ps[m].symbol == Symbols(ps)[m];
      if m < |pre| + |lines[i]| {
        assert Concat(lines)[m] == lines[i][m - |pre|];
        assert lines[i][j + 1..][m - |pre| - j - 1] == lines[i][m - |pre|];
      } else if Concat(lines)[m] == c {
        assert rest[m - |pre| - |lines[i]|] == c;
        InConcat(lines[i + 1..], c);
      }
    }
  }

  /** LastOccurrence, stated for the cells of a text. */
  lemma LastOccurrenceInText(entered: string, width: nat, height: nat, x: nat, y: nat, i: nat, j: nat)
    requires i < |Split(entered)| && j < |Split(entered)[i]|
    requires Split(entered)[i][j] !in Split(entered)[i][j + 1..]
    requires forall l :: i < l < |Split(entered)| ==> Split(entered)[i][j] !in Split(entered)[l]
    ensures var ps := TextCells(entered, width, height, x, y);
            var k := |Concat(Split(entered)[..i])| + j;
            && k < |ps|
            && ps[k] == Placement(Split(entered)[i][j], x + j * width, y + i * height)
            && forall m :: k < m < |ps| ==> ps[m].symbol != Split(entered)[i][j]
  {
    LastOccurrence(Split(entered), width, height, x, y, i, j);
  }

  /** The cells of the first k lines come first among the cells of all lines. */
  lemma {:induction false} PlacementsOfPrefix(lines: seq<string>, width: nat, height: nat, x: nat, y: nat, k: nat)
    requires k <= |lines|
    ensures Placements(lines[..k], width, height, x, y) <= Placements(lines, width, height, x, y)
  {
    if k < |lines| {
      var init := lines[..|lines| - 1];
      PlacementsOfPrefix(init, width, height, x, y, k);
      assert init[..k] == lines[..k];
    } else {
      assert lines[..k] == lines;
    }
  }

  /** The cells visited before character j of line i form a prefix of all
      cells, followed by the cell of that character when there is one. */
  lemma PlacementsSoFar(lines: seq<string>, width: nat, height: nat, x: nat, y: nat, i: nat, j: nat)
    requires i < |lines| && j <= |lines[i]|
    ensures Placements(lines[..i], width, height, x, y)
            + LinePlacements(lines[i][..j], width, x, y + i * height)
            <= Placements(lines, width, height, x, y)
  {
    var before := Placements(lines[..i], width, height, x, y);
    var whole := LinePlacements(lines[i], width, x, y + i * height);
    var part := LinePlacements(lines[i][..j], width, x, y + i * height);
    assert part <= whole;
    assert lines[..i + 1][..i] == lines[..i];
    assert Placements(lines[..i + 1], width, height, x, y) == before + whole;
    PlacementsOfPrefix(lines, width, height, x, y, i + 1);
  }

  /** The sampling positions of "ab\ncd" in 2-by-2 cells from the origin. */
  lemma LayoutExample()
    ensures TextCells("ab\ncd", 2, 2, 0, 0)
            == [Placement('a', 0, 0), Placement('b', 2, 0), Placement('c', 0, 2), Placement('d', 2, 2)]
  {
    assert Split("ab\ncd") == ["ab", "cd"] by {
      SplitBreak("ab", "cd");
      SplitLine("cd");
      assert "ab\ncd" == "ab" + "\n" + "cd";
    }
    var lines := ["ab", "cd"];
    assert lines[..1] == ["ab"];
    assert lines[..1][..0] == [];
    assert LinePlacements("ab", 2, 0, 0) == [Placement('a', 0, 0), Placement('b', 2, 0)];
    assert LinePlacements("cd", 2, 0, 2) == [Placement('c', 0, 2), Placement('d', 2, 2)];
    assert Placements(lines[..1], 2, 2, 0, 0) == LinePlacements("ab", 2, 0, 0);
  }
}
