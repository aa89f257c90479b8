/** The converter: picks the character grid's size from the preset's cell
    shape, resizes and grayscales the image, and writes for every cell the
    symbol whose brightness is nearest to the cell's. */
module Converter {
  import opened Images
  import opened Table
  import opened Layout
  import opened Preset

  /** Why a conversion stops: a division by zero while choosing the size, or
      a zero width or height, which the imaging library refuses to resize to. */
  datatype ConvertError = DivisionByZero | EmptySize

  datatype Result<T> = Success(value: T) | Failure(error: ConvertError)

  /** A symbol is chosen only when its brightness differs from the cell's by
      less than this. */
  const Threshold: real := 10.0

  function Abs(r: real): real
  {
    if r < 0.0 then -r else r
  }

  /** The state of the scan after the entries of `t`: the smallest difference
      met so far, starting at the threshold, and the symbol that had it. */
  function Scan(t: Table, color: real): (real, string)
  {
    if |t| == 0 then (Threshold, "")
    else
      var (best, symbol) := Scan(t[..|t| - 1], color);
      var difference := Distance(color, t[|t| - 1]);
      if difference < best then (difference, [t[|t| - 1].0]) else (best, symbol)
  }

  /** The symbol the scan of the whole table chooses, or "" for none. */
  function NearestSymbol(t: Table, color: real): string
  {
    Scan(t, color).1
  }

  /** How far the brightness of entry `e` is from `color`. */
  function Distance(color: real, e: Entry): real
  {
    Abs(color - e.1)
  }

  /** Entry i is within the threshold, no entry is nearer, and every earlier
      entry is strictly farther. */
  predicate IsNearest(t: Table, color: real, i: int)
  {
    && 0 <= i < |t|
    && Distance(color, t[i]) < Threshold
    && (forall j :: 0 <= j < |t| ==> Distance(color, t[i]) <= Distance(color, t[j]))
    && (forall j :: 0 <= j < i ==> Distance(color, t[i]) < Distance(color, t[j]))
  }

  /** At most one entry is the nearest one. */
  lemma NearestIsUnique(t: Table, color: real, i: int, k: int)
    requires IsNearest(t, color, i) && IsNearest(t, color, k)
    ensures i == k
  {
  }

  /** The position of the entry the scan settles on, or -1 for none. */
  function ScanIndex(t: Table, color: real): (i: int)
    ensures -1 <= i < |t|
  {
    if |t| == 0 then -1
    else
      var p := ScanIndex(t[..|t| - 1], color);
      var best := if p < 0 then Threshold else Distance(color, t[p]);
      if Distance(color, t[|t| - 1]) < best then |t| - 1 else p
  }

  /** The scan's state is that of the entry at ScanIndex, which is the
      nearest entry; with no such entry every entry is out of range. */
  lemma {:induction false} ScanByIndex(t: Table, color: real)
    ensures var i := ScanIndex(t, color);
            Scan(t, color) == if i < 0 then (Threshold, "") else (Distance(color, t[i]), [t[i].0])
    ensures var i := ScanIndex(t, color);
            i < 0 ==> forall j :: 0 <= j < |t| ==> Distance(color, t[j]) >= Threshold
    ensures ScanIndex(t, color) >= 0 ==> IsNearest(t, color, ScanIndex(t, color))
  {
    if |t| > 0 {
      var init := t[..|t| - 1];
      var last := |t| - 1;
      ScanByIndex(init, color);
      var p := ScanIndex(init, color);
      assert forall j :: 0 <= j < last ==> init[j] == t[j];
      if p >= 0 {
        assert IsNearest(init, color, p);
        if Distance(color, t[last]) < Distance(color, t[p]) {
          assert IsNearest(t, color, last);
        } else {
          assert IsNearest(t, color, p);
        }
      } else if Distance(color, t[last]) < Threshold {
        assert IsNearest(t, color, last);
      }
    }
  }

  /** The scan yields "" exactly when no entry is within the threshold, and
      otherwise the symbol of the nearest entry, the earliest on a tie. */
  lemma NearestSymbolSpec(t: Table, color: real)
    ensures NearestSymbol(t, color) == "" <==> forall j :: 0 <= j < |t| ==> Distance(color, t[j]) >= Threshold
    ensures forall i :: IsNearest(t, color, i) ==> NearestSymbol(t, color) == [t[i].0]
    ensures NearestSymbol(t, color) != "" ==>
              exists i :: IsNearest(t, color, i) && NearestSymbol(t, color) == [t[i].0]
  {
    ScanByIndex(t, color);
    var k := ScanIndex(t, color);
    forall i | IsNearest(t, color, i) ensures NearestSymbol(t, color) == [t[i].0] {
      NearestIsUnique(t, color, i, k);
    }
  }

  /** The chosen symbol is "" or one key of the table. */
  lemma NearestSymbolIsKey(t: Table, color: real)
    ensures |NearestSymbol(t, color)| <= 1
    ensures NearestSymbol(t, color) != "" ==> NearestSymbol(t, color)[0] in KeySet(t)
  {
    ScanByIndex(t, color);
    var i := ScanIndex(t, color);
    if i >= 0 {
      assert t[i] in t;
    }
  }

  /** Scans the table in order, replacing the candidate whenever an entry is
      strictly nearer than the best so far (initially the threshold): the
      result is the earliest entry at the smallest distance when that
      distance is below 10.0, and "" otherwise. */
  method ChooseSymbol(color: real, brightness: Table) returns (result: string)
    ensures result == NearestSymbol(brightness, color)
  {
    var minDifference := Threshold;
    result := "";
    for i := 0 to |brightness|
      invariant (minDifference, result) == Scan(brightness[..i], color)
    {
      assert brightness[..i + 1][..i] == brightness[..i];
      var (symbol, value) := brightness[i];
      var difference := Abs(color - value);
      if difference < minDifference {
        minDifference := difference;
        result := [symbol];
      }
    }
    assert brightness[..|brightness|] == brightness;
  }

  /** Truncation of a non-negative real to an integer, as int() does. */
  function Trunc(v: real): (n: nat)
    requires v >= 0.0
    ensures n as real <= v < n as real + 1.0
  {
    v.Floor
  }

  /** n is the integer part of num / den. */
  predicate IsQuotient(n: nat, num: int, den: int)
  {
    n * den <= num < (n + 1) * den
  }

  lemma CastMul(a: nat, b: nat)
    ensures (a * b) as real == a as real * b as real
  {
  }

  lemma MulAtMost(a: real, b: real, c: real)
    requires a <= b && c > 0.0
    ensures a * c <= b * c
  {
  }

  lemma MulLess(a: real, b: real, c: real)
    requires a < b && c > 0.0
    ensures a * c < b * c
  {
  }

  lemma DivMul(a: real, b: real)
    requires b != 0.0
    ensures a / b * b == a
  {
  }

  lemma DivOfDiv(a: real, b: real, c: real, d: real)
    requires b != 0.0 && c != 0.0 && d != 0.0
    ensures (a / b) / (c / d) == (a * d) / (b * c)
  {
  }

  lemma DivByDiv(a: real, b: real, c: real)
    requires b != 0.0 && c != 0.0
    ensures a / (b / c) == (a * c) / b
  {
  }

  lemma DivTimesDiv(a: real, b: real, c: real, d: real)
    requires b != 0.0 && d != 0.0
    ensures (a / b) * (c / d) == (a * c) / (b * d)
  {
  }

  lemma Ratio(a: nat, b: nat)
    requires b > 0
    ensures a as real / b as real >= 0.0
    ensures a as real / b as real == 0.0 <==> a == 0
  {
  }

  lemma QuotientBounds(n: nat, num: nat, den: nat)
    requires den > 0
    requires n as real <= num as real / den as real < (n + 1) as real
    ensures IsQuotient(n, num, den)
  {
    var q := num as real / den as real;
    DivMul(num as real, den as real);
    MulAtMost(n as real, q, den as real);
    MulLess(q, (n + 1) as real, den as real);
    CastMul(n, den);
    CastMul(n + 1, den);
  }

  /** Truncating num / den computed in reals gives the integer quotient. */
  lemma QuotientFromReal(num: nat, den: nat)
    requires den > 0
    ensures num as real / den as real >= 0.0
    ensures IsQuotient(Trunc(num as real / den as real), num, den)
  {
    Ratio(num, den);
    QuotientBounds(Trunc(num as real / den as real), num, den);
  }

  /** The character grid's (width, height), computed as the converter
      does: the cell's height-to-width ratio scales the width when no size is
      given, and the missing size follows from the image's proportions when
      one is given. Sizes are truncated, not rounded. */
  function TargetResolution(originalWidth: nat, originalHeight: nat, symbolWidth: nat, symbolHeight: nat,
                            outputWidth: nat, outputHeight: nat): (r: Result<(nat, nat)>)
    ensures r.Failure? ==> r.error == DivisionByZero
    ensures r.Success? && outputWidth != 0 ==> r.value.0 == outputWidth
    ensures r.Success? && outputHeight != 0 ==> r.value.1 == outputHeight
    ensures r.Success? && outputWidth == 0 && outputHeight == 0 ==> r.value.1 == originalHeight
  {
    if symbolWidth == 0 then Failure(DivisionByZero)
    else
      var koeff := symbolHeight as real / symbolWidth as real;
      Ratio(symbolHeight, symbolWidth);
      if outputWidth == 0 && outputHeight == 0 then
        NoSizeGiven(originalWidth, symbolWidth, symbolHeight);
        Success((Trunc(originalWidth as real * koeff), originalHeight))
      else if outputWidth == 0 then
        if koeff == 0.0 then Failure(DivisionByZero)
        else
          var k := (originalHeight as real / outputHeight as real) / koeff;
          HeightGiven(originalWidth, originalHeight, symbolWidth, symbolHeight, outputHeight);
          if k == 0.0 then Failure(DivisionByZero)
          else Success((Trunc(originalWidth as real / k), outputHeight))
      else if outputHeight == 0 then
        var k := (originalWidth as real / outputWidth as real) * koeff;
        WidthGiven(originalWidth, originalHeight, symbolWidth, symbolHeight, outputWidth);
        if k == 0.0 then Failure(DivisionByZero)
        else Success((outputWidth, Trunc(originalHeight as real / k)))
      else Success((outputWidth, outputHeight))
  }

  /** The size fails with a division by zero exactly when the cell has no
      width, or the size to be derived needs a zero cell height or a zero
      image side as divisor. Otherwise given sizes are kept, and a missing
      one is the integer part of the proportional size: with none given,
      width * symbolHeight / symbolWidth; with only the height given,
      width * outputHeight * symbolHeight / (height * symbolWidth); with only
      the width given, height * outputWidth * symbolWidth / (width * symbolHeight). */
  lemma TargetResolutionSpec(originalWidth: nat, originalHeight: nat, symbolWidth: nat, symbolHeight: nat,
                             outputWidth: nat, outputHeight: nat)
    ensures var r := TargetResolution(originalWidth, originalHeight, symbolWidth, symbolHeight, outputWidth, outputHeight);
            r.Failure? <==>
              || symbolWidth == 0
              || (outputWidth == 0 && outputHeight != 0 && (symbolHeight == 0 || originalHeight == 0))
              || (outputWidth != 0 && outputHeight == 0 && (symbolHeight == 0 || originalWidth == 0))
    ensures var r := TargetResolution(originalWidth, originalHeight, symbolWidth, symbolHeight, outputWidth, outputHeight);
            r.Failure? ==> r.error == DivisionByZero
    ensures var r := TargetResolution(originalWidth, originalHeight, symbolWidth, symbolHeight, outputWidth, outputHeight);
            r.Success? && outputWidth != 0 && outputHeight != 0 ==> r.value == (outputWidth, outputHeight)
    ensures var r := TargetResolution(originalWidth, originalHeight, symbolWidth, symbolHeight, outputWidth, outputHeight);
            r.Success? && outputWidth == 0 && outputHeight == 0 ==>
              r.value.1 == originalHeight
              && IsQuotient(r.value.0, originalWidth * symbolHeight, symbolWidth)
    ensures var r := TargetResolution(originalWidth, originalHeight, symbolWidth, symbolHeight, outputWidth, outputHeight);
            r.Success? && outputWidth == 0 && outputHeight != 0 ==>
              r.value.1 == outputHeight
              && IsQuotient(r.value.0, originalWidth * outputHeight * symbolHeight, originalHeight * symbolWidth)
    ensures var r := TargetResolution(originalWidth, originalHeight, symbolWidth, symbolHeight, outputWidth, outputHeight);
            r.Success? && outputWidth != 0 && outputHeight == 0 ==>
              r.value.0 == outputWidth
              && IsQuotient(r.value.1, originalHeight * outputWidth * symbolWidth, originalWidth * symbolHeight)
  {
    if symbolWidth > 0 {
      Ratio(symbolHeight, symbolWidth);
      if outputWidth == 0 && outputHeight == 0 {
        NoSizeGiven(originalWidth, symbolWidth, symbolHeight);
      } else if outputWidth == 0 {
        if symbolHeight > 0 {
          HeightGiven(originalWidth, originalHeight, symbolWidth, symbolHeight, outputHeight);
        }
      } else if outputHeight == 0 {
        WidthGiven(originalWidth, originalHeight, symbolWidth, symbolHeight, outputWidth);
      }
    }
  }

  lemma NoSizeGiven(originalWidth: nat, symbolWidth: nat, symbolHeight: nat)
    requires symbolWidth > 0
    ensures var v := originalWidth as real * (symbolHeight as real / symbolWidth as real);
            v >= 0.0 && IsQuotient(Trunc(v), originalWidth * symbolHeight, symbolWidth)
  {
    var v := originalWidth as real * (symbolHeight as real / symbolWidth as real);
    CastMul(originalWidth, symbolHeight);
    assert v == (originalWidth * symbolHeight) as real / symbolWidth as real;
    QuotientFromReal(originalWidth * symbolHeight, symbolWidth);
  }

  /** A quotient of two ratios as one ratio of naturals. */
  lemma RatioOfRatios(a: nat, b: nat, c: nat, d: nat)
    requires b > 0 && c > 0 && d > 0
    ensures (a as real / b as real) / (c as real / d as real) == (a * d) as real / (b * c) as real
  {
    DivOfDiv(a as real, b as real, c as real, d as real);
    CastMul(a, d);
    CastMul(b, c);
  }

  /** A product of two ratios as one ratio of naturals. */
  lemma ProductOfRatios(a: nat, b: nat, c: nat, d: nat)
    requires b > 0 && d > 0
    ensures (a as real / b as real) * (c as real / d as real) == (a * c) as real / (b * d) as real
  {
    DivTimesDiv(a as real, b as real, c as real, d as real);
    CastMul(a, c);
    CastMul(b, d);
  }

  /** Dividing by the ratio a / b and truncating gives the integer part of
      x * b / a. */
  lemma DivideByRatio(x: nat, a: nat, b: nat)
    requires a > 0 && b > 0
    ensures x as real / (a as real / b as real) >= 0.0
    ensures IsQuotient(Trunc(x as real / (a as real / b as real)), x * b, a)
  {
    DivByDiv(x as real, a as real, b as real);
    CastMul(x, b);
    QuotientFromReal(x * b, a);
  }

  /** The ratio k of the height-given branch and the width it yields. */
  lemma HeightGiven(originalWidth: nat, originalHeight: nat, symbolWidth: nat, symbolHeight: nat, outputHeight: nat)
    requires symbolWidth > 0 && symbolHeight > 0 && outputHeight > 0
    ensures var k := (originalHeight as real / outputHeight as real) / (symbolHeight as real / symbolWidth as real);
            && (k == 0.0 <==> originalHeight == 0)
            && (k != 0.0 ==>
                  originalWidth as real / k >= 0.0
                  && IsQuotient(Trunc(originalWidth as real / k),
                                originalWidth * outputHeight * symbolHeight, originalHeight * symbolWidth))
  {
    var a := originalHeight * symbolWidth;
    var b := outputHeight * symbolHeight;
    RatioOfRatios(originalHeight, outputHeight, symbolHeight, symbolWidth);
    Ratio(a, b);
    assert a == 0 <==> originalHeight == 0;
    if a != 0 {
      DivideByRatio(originalWidth, a, b);
      assert originalWidth * b == originalWidth * outputHeight * symbolHeight;
    }
  }

  /** The ratio k of the width-given branch and the height it yields. */
  lemma WidthGiven(originalWidth: nat, originalHeight: nat, symbolWidth: nat, symbolHeight: nat, outputWidth: nat)
    requires symbolWidth > 0 && outputWidth > 0
    ensures var k := (originalWidth as real / outputWidth as real) * (symbolHeight as real / symbolWidth as real);
            && (k == 0.0 <==> originalWidth == 0 || symbolHeight == 0)
            && (k != 0.0 ==>
                  originalHeight as real / k >= 0.0
                  && IsQuotient(Trunc(originalHeight as real / k),
                                originalHeight * outputWidth * symbolWidth, originalWidth * symbolHeight))
  {
    var a := originalWidth * symbolHeight;
    var b := outputWidth * symbolWidth;
    ProductOfRatios(originalWidth, outputWidth, symbolHeight, symbolWidth);
    Ratio(a, b);
    assert a == 0 <==> originalWidth == 0 || symbolHeight == 0;
    if a != 0 {
      DivideByRatio(originalHeight, a, b);
      assert originalHeight * b == originalHeight * outputWidth * symbolWidth;
    }
  }

  /** One row of output: the chosen symbols of the row's cells, left to right. */
  function Line(row: seq<real>, t: Table): string
  {
    if |row| == 0 then "" else Line(row[..|row| - 1], t) + NearestSymbol(t, row[|row| - 1])
  }

  /** The whole output: every row's line followed by '\n'. */
  function Render(grid: seq<seq<real>>, t: Table): string
  {
    if |grid| == 0 then "" else Render(grid[..|grid| - 1], t) + Line(grid[|grid| - 1], t) + "\n"
  }

  function Lines(grid: seq<seq<real>>, t: Table): seq<string>
  {
    seq(|grid|, i requires 0 <= i < |grid| => Line(grid[i], t))
  }

  /** A line has at most one character per cell, and exactly one per cell
      when every cell found a symbol; all its characters are keys. */
  lemma {:induction false} LineShape(row: seq<real>, t: Table)
    ensures |Line(row, t)| <= |row|
    ensures |Line(row, t)| == |row| <==> forall i :: 0 <= i < |row| ==> NearestSymbol(t, row[i]) != ""
    ensures forall c :: c in Line(row, t) ==> c in KeySet(t)
  {
    if |row| > 0 {
      var init := row[..|row| - 1];
      LineShape(init, t);
      NearestSymbolIsKey(t, row[|row| - 1]);
      if |Line(row, t)| == |row| {
        forall i | 0 <= i < |row| ensures NearestSymbol(t, row[i]) != "" {
          if i < |row| - 1 {
            assert init[i] == row[i];
          }
        }
      }
    }
  }

  /** The output holds one '\n' per row and, unless empty, ends with one. */
  lemma {:induction false} RenderBreaks(grid: seq<seq<real>>, t: Table)
    requires '\n' !in KeySet(t)
    ensures multiset(Render(grid, t))['\n'] == |grid|
    ensures |grid| > 0 ==> |Render(grid, t)| > 0 && Render(grid, t)[|Render(grid, t)| - 1] == '\n'
  {
    if |grid| > 0 {
      RenderBreaks(grid[..|grid| - 1], t);
      LineShape(grid[|grid| - 1], t);
      assert '\n' !in multiset(Line(grid[|grid| - 1], t));
    }
  }

  lemma {:induction false} RenderIsJoin(grid: seq<seq<real>>, t: Table)
    ensures Render(grid, t) == Join(Lines(grid, t) + [""])
  {
    if |grid| > 0 {
      var init := grid[..|grid| - 1];
      var row := Line(grid[|grid| - 1], t);
      RenderIsJoin(init, t);
      assert Lines(grid, t) == Lines(init, t) + [row];
      JoinTerminated(Lines(init, t), row);
    }
  }

  /** Splitting the output at '\n' gives back the rows' lines, in order,
      followed by the empty text after the final '\n'. */
  lemma RenderLines(grid: seq<seq<real>>, t: Table)
    requires '\n' !in KeySet(t)
    ensures Split(Render(grid, t)) == Lines(grid, t) + [""]
  {
    RenderIsJoin(grid, t);
    forall i | 0 <= i < |grid| ensures '\n' !in Line(grid[i], t) {
      LineShape(grid[i], t);
    }
    SplitJoin(Lines(grid, t) + [""]);
  }

  /** `resize(w, h)` is an image h rows high and w columns wide whenever w and
      h are positive. */
  ghost predicate Resizes(resize: (nat, nat) -> Image)
  {
    forall w: nat, h: nat :: 0 < w && 0 < h ==> IsGrid(resize(w, h), h, w)
  }

  /** Writes, for every row of the brightness grid, the chosen symbol of
      each cell followed by a '\n'. */
  method RenderRows(img: array2<real>, brightness: Table) returns (text: string)
    ensures text == Render(Rows(img), brightness)
  {
    ghost var grid := Rows(img);
    text := "";
    for y := 0 to img.Length0
      invariant text == Render(grid[..y], brightness)
    {
      for x := 0 to img.Length1
        invariant text == Render(grid[..y], brightness) + Line(grid[y][..x], brightness)
      {
        assert grid[y][..x + 1][..x] == grid[y][..x];
        var symbol := ChooseSymbol(img[y, x], brightness);
        text := text + symbol;
      }
      assert grid[y][..img.Length1] == grid[y];
      assert grid[..y + 1][..y] == grid[..y];
      text := text + "\n";
    }
    assert grid[..img.Length0] == grid;
  }

  /** Chooses the character grid's size, resizes the image to it, and writes
      one line per row of the grayscaled result. */
  method Convert(originalWidth: nat, originalHeight: nat, resize: (nat, nat) -> Image,
                 preset: AsciiArtPreset, outputWidth: nat, outputHeight: nat) returns (result: Result<string>)
    requires Resizes(resize)
    ensures match TargetResolution(originalWidth, originalHeight, preset.symbolWidth, preset.symbolHeight,
                                   outputWidth, outputHeight)
            case Failure(e) => result == Failure(e)
            case Success((w, h)) =>
              if w == 0 || h == 0 then result == Failure(EmptySize)
              else result == Success(Render(GrayOf(resize(w, h)), preset.brightness))
  {
    var target := TargetResolution(originalWidth, originalHeight, preset.symbolWidth, preset.symbolHeight,
                                   outputWidth, outputHeight);
    if target.Failure? {
      return Failure(target.error);
    }
    var (newWidth, newHeight) := target.value;
    if newWidth == 0 || newHeight == 0 {
      return Failure(EmptySize);
    }
    var img := Grayscale(resize(newWidth, newHeight));
    var text := RenderRows(img, preset.brightness);
    return Success(text);
  }

  /** The lookups listed as examples: an exact match wins, a distant
      brightness gets no symbol, and equal brightness goes to the first key. */
  lemma NearestExamples()
    ensures NearestSymbol([('a', 0.0), ('b', 5.0), ('c', 9.9)], 5.0) == "b"
    ensures NearestSymbol([('a', 0.0), ('b', 5.0), ('c', 9.9)], 20.0) == ""
    ensures NearestSymbol([('a', 3.0), ('b', 3.0)], 3.0) == "a"
  {
    var t := [('a', 0.0), ('b', 5.0), ('c', 9.9)];
    assert t[..2] == [('a', 0.0), ('b', 5.0)];
    assert t[..2][..1] == [('a', 0.0)];
    assert [('a', 0.0)][..0] == [];
    assert Scan([('a', 0.0)], 5.0) == (5.0, "a");
    assert Scan(t[..2], 5.0) == (0.0, "b");
    assert Scan(t, 5.0) == (0.0, "b");
    assert Scan([('a', 0.0)], 20.0) == (Threshold, "");
    assert Scan(t[..2], 20.0) == (Threshold, "");
    assert Scan(t, 20.0) == (Threshold, "");
    var u := [('a', 3.0), ('b', 3.0)];
    assert u[..1] == [('a', 3.0)];
    assert [('a', 3.0)][..0] == [];
    assert Scan([('a', 3.0)], 3.0) == (0.0, "a");
    assert Scan(u, 3.0) == (0.0, "a");
  }

  /** A two-tone preset renders a black two-cell row as ".." and a white one
      as "##", each followed by a line break. */
  lemma TwoToneExample()
    ensures Render([[0.0, 0.0]], [('.', 0.0), ('#', 255.0)]) == "..\n"
    ensures Render([[255.0, 255.0]], [('.', 0.0), ('#', 255.0)]) == "##\n"
  {
    var t := [('.', 0.0), ('#', 255.0)];
    assert t[..1] == [('.', 0.0)];
    assert [('.', 0.0)][..0] == [];
    assert NearestSymbol(t, 0.0) == ".";
    assert NearestSymbol(t, 255.0) == "#";
    assert [0.0, 0.0][..1] == [0.0];
    assert [0.0][..0] == [];
    assert Line([0.0, 0.0], t) == "..";
    assert [255.0, 255.0][..1] == [255.0];
    assert [255.0][..0] == [];
    assert Line([255.0, 255.0], t) == "##";
    assert [[0.0, 0.0]][..0] == [];
    assert [[255.0, 255.0]][..0] == [];
  }
}
