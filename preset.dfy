/** The preset: the cell size of the reference font and the brightness of
    each symbol, measured as the average brightness of the symbol's cell in
    a screenshot of rendered reference text. */
module Preset {
  import opened Images
  import opened Table
  import opened Layout

  /** The sum of the n cells of `row` starting at column x. */
  function RowSum(row: seq<real>, x: nat, n: nat): real
    requires x + n <= |row|
  {
    if n == 0 then 0.0 else RowSum(row, x, n - 1) + row[x + n - 1]
  }

  /** The width-by-height block at (x, y) lies inside `grid`. */
  predicate InBlock(grid: seq<seq<real>>, x: nat, y: nat, width: nat, height: nat)
  {
    y + height <= |grid| && forall r :: y <= r < y + height ==> x + width <= |grid[r]|
  }

  /** The sum of the first `height` rows of the block at (x, y). */
  function BlockSum(grid: seq<seq<real>>, x: nat, y: nat, width: nat, height: nat): real
    requires InBlock(grid, x, y, width, height)
  {
    if height == 0 then 0.0
    else BlockSum(grid, x, y, width, height - 1) + RowSum(grid[y + height - 1], x, width)
  }

  /** The arithmetic mean of the width * height cells of the block at (x, y). */
  function CellAverage(grid: seq<seq<real>>, x: nat, y: nat, width: nat, height: nat): real
    requires InBlock(grid, x, y, width, height) && 0 < width && 0 < height
  {
    BlockSum(grid, x, y, width, height) / (width * height) as real
  }

  /** Scaling distributes over a sum of naturals. */
  lemma ScaleSum(c: real, a: nat, b: nat)
    ensures c * (a + b) as real == c * a as real + c * b as real
  {
  }

  /** Scaled by c, a block of `height` rows counts c for each of the cells
      of its first `height - 1` rows and of its last row. */
  lemma ScaleArea(c: real, width: nat, height: nat)
    requires 0 < height
    ensures c * (width * height) as real == c * (width * (height - 1)) as real + c * width as real
  {
    var a := width * (height - 1);
    assert width * height == a + width;
    ScaleSum(c, a, width);
  }

  lemma {:induction false} RowSumAtLeast(row: seq<real>, x: nat, n: nat, lo: real)
    requires x + n <= |row|
    requires forall c :: x <= c < x + n ==> lo <= row[c]
    ensures lo * n as real <= RowSum(row, x, n)
  {
    if n > 0 {
      RowSumAtLeast(row, x, n - 1, lo);
      ScaleSum(lo, n - 1, 1);
    }
  }

  lemma {:induction false} RowSumAtMost(row: seq<real>, x: nat, n: nat, hi: real)
    requires x + n <= |row|
    requires forall c :: x <= c < x + n ==> row[c] <= hi
    ensures RowSum(row, x, n) <= hi * n as real
  {
    if n > 0 {
      RowSumAtMost(row, x, n - 1, hi);
      ScaleSum(hi, n - 1, 1);
    }
  }

  lemma {:induction false} BlockSumAtLeast(grid: seq<seq<real>>, x: nat, y: nat, width: nat, height: nat, lo: real)
    requires InBlock(grid, x, y, width, height)
    requires forall r, c :: y <= r < y + height && x <= c < x + width ==> lo <= grid[r][c]
    ensures lo * (width * height) as real <= BlockSum(grid, x, y, width, height)
  {
    if height > 0 {
      BlockSumAtLeast(grid, x, y, width, height - 1, lo);
      RowSumAtLeast(grid[y + height - 1], x, width, lo);
      ScaleArea(lo, width, height);
    }
  }

  lemma {:induction false} BlockSumAtMost(grid: seq<seq<real>>, x: nat, y: nat, width: nat, height: nat, hi: real)
    requires InBlock(grid, x, y, width, height)
    requires forall r, c :: y <= r < y + height && x <= c < x + width ==> grid[r][c] <= hi
    ensures BlockSum(grid, x, y, width, height) <= hi * (width * height) as real
  {
    if height > 0 {
      BlockSumAtMost(grid, x, y, width, height - 1, hi);
      RowSumAtMost(grid[y + height - 1], x, width, hi);
      ScaleArea(hi, width, height);
    }
  }

  lemma AreaPositive(width: nat, height: nat)
    requires 0 < width && 0 < height
    ensures width * height > 0
  {
  }

  /** A sum between lo * n and hi * n, divided by n > 0, lies between lo and hi. */
  lemma DivideBounds(lo: real, s: real, hi: real, n: real)
    requires n > 0.0 && lo * n <= s <= hi * n
    ensures lo <= s / n <= hi
  {
    assert lo * n / n == lo;
    assert hi * n / n == hi;
  }

  /** The average of a block lies between the smallest and the largest
      brightness found in it. */
  lemma CellAverageBounds(grid: seq<seq<real>>, x: nat, y: nat, width: nat, height: nat, lo: real, hi: real)
    requires InBlock(grid, x, y, width, height) && 0 < width && 0 < height
    requires forall r, c :: y <= r < y + height && x <= c < x + width ==> lo <= grid[r][c] <= hi
    ensures lo <= CellAverage(grid, x, y, width, height) <= hi
  {
    BlockSumAtLeast(grid, x, y, width, height, lo);
    BlockSumAtMost(grid, x, y, width, height, hi);
    AreaPositive(width, height);
    var n := (width * height) as real;
    var s := BlockSum(grid, x, y, width, height);
    DivideBounds(lo, s, hi, n);
  }

  /** Over a block of constant brightness c the average is c, whatever the
      size of the block. */
  lemma UniformCellAverage(grid: seq<seq<real>>, x: nat, y: nat, width: nat, height: nat, c: real)
    requires InBlock(grid, x, y, width, height) && 0 < width && 0 < height
    requires forall r, k :: y <= r < y + height && x <= k < x + width ==> grid[r][k] == c
    ensures CellAverage(grid, x, y, width, height) == c
  {
    CellAverageBounds(grid, x, y, width, height, c, c);
  }

  /** Adds up the block at (x, y) row by row and divides by its area. */
  method AverageBrightness(image: array2<real>, x: nat, y: nat, width: nat, height: nat) returns (average: real)
    requires y + height <= image.Length0 && x + width <= image.Length1
    requires 0 < width && 0 < height
    ensures average == CellAverage(Rows(image), x, y, width, height)
  {
    ghost var grid := Rows(image);
    var brightness := 0.0;
    for dy := 0 to height
      invariant brightness == BlockSum(grid, x, y, width, dy)
    {
      for dx := 0 to width
        invariant brightness == BlockSum(grid, x, y, width, dy) + RowSum(grid[y + dy], x, dx)
      {
        brightness := brightness + image[y + dy, x + dx];
      }
    }
    average := brightness / (width * height) as real;
  }

  /** The cell of placement p lies inside a rows-by-cols image and is not empty. */
  predicate Fits(p: Placement, width: nat, height: nat, rows: nat, cols: nat)
  {
    0 < width && 0 < height && p.y + height <= rows && p.x + width <= cols
  }

  predicate AllFit(ps: seq<Placement>, width: nat, height: nat, rows: nat, cols: nat)
  {
    forall i :: 0 <= i < |ps| ==> Fits(ps[i], width, height, rows, cols)
  }

  /** Every cell of the reference text lies inside the screenshot. */
  predicate TextFits(screen: Image, entered: string, width: nat, height: nat, x: nat, y: nat)
    requires IsImage(screen)
  {
    AllFit(TextCells(entered, width, height, x, y), width, height, |screen|, |screen[0]|)
  }

  /** The (symbol, brightness) entries measured at the placements, in order. */
  function Samples(grid: seq<seq<real>>, ps: seq<Placement>, width: nat, height: nat): (s: seq<Entry>)
    requires |grid| > 0 && IsGrid(grid, |grid|, |grid[0]|)
    requires AllFit(ps, width, height, |grid|, |grid[0]|)
  {
    seq(|ps|, i requires 0 <= i < |ps| =>
      (ps[i].symbol, CellAverage(grid, ps[i].x, ps[i].y, width, height)))
  }

  /** The table that generating a preset leaves behind when it started from `t`. */
  function Generated(t: Table, screen: Image, entered: string, width: nat, height: nat, x: nat, y: nat): Table
    requires UniqueKeys(t) && IsImage(screen) && TextFits(screen, entered, width, height, x, y)
  {
    Store(t, Samples(GrayOf(screen), TextCells(entered, width, height, x, y), width, height))
  }

  /** The keys of the measured entries are the symbols of the placements. */
  lemma SamplesKeys(grid: seq<seq<real>>, ps: seq<Placement>, width: nat, height: nat)
    requires |grid| > 0 && IsGrid(grid, |grid|, |grid[0]|)
    requires AllFit(ps, width, height, |grid|, |grid[0]|)
    ensures KeySet(Samples(grid, ps, width, height)) == set c | c in Symbols(ps)
  {
    var s := Samples(grid, ps, width, height);
    forall c | c in KeySet(s) ensures c in Symbols(ps) {
      var e :| e in s && e.0 == c;
      var i :| 0 <= i < |s| && s[i] == e;
      assert Symbols(ps)[i] == c;
    }
    forall c | c in Symbols(ps) ensures c in KeySet(s) {
      var i :| 0 <= i < |ps| && Symbols(ps)[i] == c;
      assert s[i] in s;
    }
  }

  /** The keys that generating a preset writes are the characters of the
      reference text other than '\n'. */
  lemma TextKeys(screen: Image, entered: string, width: nat, height: nat, x: nat, y: nat)
    requires IsImage(screen) && TextFits(screen, entered, width, height, x, y)
    ensures KeySet(Samples(GrayOf(screen), TextCells(entered, width, height, x, y), width, height))
            == set c | c in entered && c != '\n'
  {
    SamplesKeys(GrayOf(screen), TextCells(entered, width, height, x, y), width, height);
    LayoutSymbols(entered, width, height, x, y);
  }

  /** Generating a preset adds exactly the characters of the reference text
      other than '\n' to the table's keys. */
  lemma GeneratedKeys(t: Table, screen: Image, entered: string, width: nat, height: nat, x: nat, y: nat)
    requires UniqueKeys(t) && IsImage(screen) && TextFits(screen, entered, width, height, x, y)
    ensures KeySet(Generated(t, screen, entered, width, height, x, y))
            == KeySet(t) + (set c | c in entered && c != '\n')
  {
    StoreKeySet(t, Samples(GrayOf(screen), TextCells(entered, width, height, x, y), width, height));
    TextKeys(screen, entered, width, height, x, y);
  }

  /** A cell that fits inside the screenshot is a block of its brightness grid. */
  lemma CellInBlock(screen: Image, p: Placement, width: nat, height: nat)
    requires IsImage(screen) && Fits(p, width, height, |screen|, |screen[0]|)
    ensures InBlock(GrayOf(screen), p.x, p.y, width, height) && 0 < width && 0 < height
  {
  }

  /** A character that occurs several times holds the brightness of its
      last occurrence in reading order: when cell k, at (left, top), carries
      `symbol` and no later cell does, `symbol` maps to that cell's average. */
  lemma GeneratedLastWins(t: Table, screen: Image, entered: string, width: nat, height: nat, x: nat, y: nat,
                          k: nat, symbol: char, left: nat, top: nat)
    requires UniqueKeys(t) && IsImage(screen) && TextFits(screen, entered, width, height, x, y)
    requires k < |TextCells(entered, width, height, x, y)|
    requires TextCells(entered, width, height, x, y)[k] == Placement(symbol, left, top)
    requires forall m :: k < m < |TextCells(entered, width, height, x, y)| ==>
               TextCells(entered, width, height, x, y)[m].symbol != symbol
    ensures InBlock(GrayOf(screen), left, top, width, height) && 0 < width && 0 < height
    ensures Lookup(Generated(t, screen, entered, width, height, x, y), symbol)
            == Some(CellAverage(GrayOf(screen), left, top, width, height))
  {
    var ps := TextCells(entered, width, height, x, y);
    CellInBlock(screen, ps[k], width, height);
    StoreLastWins(t, Samples(GrayOf(screen), ps, width, height), k);
  }

  /** Keys already in the table keep their positions, and those absent from
      the reference text also keep their values. */
  lemma GeneratedKeepsOthers(t: Table, screen: Image, entered: string, width: nat, height: nat, x: nat, y: nat, i: nat)
    requires UniqueKeys(t) && IsImage(screen) && TextFits(screen, entered, width, height, x, y)
    requires i < |t|
    ensures Generated(t, screen, entered, width, height, x, y)[i].0 == t[i].0
    ensures t[i].0 !in entered ==> Generated(t, screen, entered, width, height, x, y)[i] == t[i]
  {
    StoreKeepsPositions(t, Samples(GrayOf(screen), TextCells(entered, width, height, x, y), width, height), i);
    TextKeys(screen, entered, width, height, x, y);
  }

  /** Character j of line i of the reference text, when it occurs neither
      later in its line nor in a later line, ends up with the average
      brightness of the cell at (x + j * width, y + i * height). */
  lemma {:induction false} GeneratedAt(t: Table, screen: Image, entered: string, width: nat, height: nat, x: nat, y: nat,
                    i: nat, j: nat)
    requires UniqueKeys(t) && IsImage(screen) && TextFits(screen, entered, width, height, x, y)
    requires i < |Split(entered)| && j < |Split(entered)[i]|
    requires Split(entered)[i][j] !in Split(entered)[i][j + 1..]
    requires forall l :: i < l < |Split(entered)| ==> Split(entered)[i][j] !in Split(entered)[l]
    ensures InBlock(GrayOf(screen), x + j * width, y + i * height, width, height) && 0 < width && 0 < height
    ensures Lookup(Generated(t, screen, entered, width, height, x, y), Split(entered)[i][j])
            == Some(CellAverage(GrayOf(screen), x + j * width, y + i * height, width, height))
  {
    var k := |Concat(Split(entered)[..i])| + j;
    LastOccurrenceInText(entered, width, height, x, y, i, j);
    GeneratedLastWins(t, screen, entered, width, height, x, y, k, Split(entered)[i][j], x + j * width, y + i * height);
  }

  /** Generating a preset never adds '\n' as a key. */
  lemma GeneratedNoBreak(t: Table, screen: Image, entered: string, width: nat, height: nat, x: nat, y: nat)
    requires UniqueKeys(t) && IsImage(screen) && TextFits(screen, entered, width, height, x, y)
    requires '\n' !in KeySet(t)
    ensures '\n' !in KeySet(Generated(t, screen, entered, width, height, x, y))
  {
    GeneratedKeys(t, screen, entered, width, height, x, y);
  }

  /** The cells visited before character j of line i of the reference text. */
  function SoFar(entered: string, width: nat, height: nat, x: nat, y: nat, i: nat, j: nat): seq<Placement>
    requires i < |Split(entered)| && j <= |Split(entered)[i]|
  {
    Placements(Split(entered)[..i], width, height, x, y)
    + LinePlacements(Split(entered)[i][..j], width, x, y + i * height)
  }

  /** Before the first character of line i come the cells of the earlier
      lines; after its last character, the cells of line i as well. */
  lemma SoFarLine(entered: string, width: nat, height: nat, x: nat, y: nat, i: nat)
    requires i < |Split(entered)|
    ensures SoFar(entered, width, height, x, y, i, 0) == Placements(Split(entered)[..i], width, height, x, y)
    ensures SoFar(entered, width, height, x, y, i, |Split(entered)[i]|)
            == Placements(Split(entered)[..i + 1], width, height, x, y)
  {
    var lines := Split(entered);
    assert lines[i][..0] == [];
    assert lines[i][..|lines[i]|] == lines[i];
    assert lines[..i + 1][..i] == lines[..i];
  }

  /** Measuring one more placement appends its sample. */
  lemma SamplesAppend(grid: seq<seq<real>>, ps: seq<Placement>, p: Placement, width: nat, height: nat)
    requires |grid| > 0 && IsGrid(grid, |grid|, |grid[0]|)
    requires AllFit(ps + [p], width, height, |grid|, |grid[0]|)
    ensures AllFit(ps, width, height, |grid|, |grid[0]|)
    ensures InBlock(grid, p.x, p.y, width, height) && 0 < width && 0 < height
    ensures Samples(grid, ps + [p], width, height)
            == Samples(grid, ps, width, height) + [(p.symbol, CellAverage(grid, p.x, p.y, width, height))]
  {
    assert forall k :: 0 <= k < |ps| ==> (ps + [p])[k] == ps[k];
    assert Fits((ps + [p])[|ps|], width, height, |grid|, |grid[0]|);
  }

  /** Character j of line i sits at (left, top), and the cells visited up to
      and including it are the cells visited before it followed by its own,
      all inside the screenshot. */
  lemma SoFarStep(screen: Image, entered: string, width: nat, height: nat, x: nat, y: nat,
                  i: nat, j: nat, left: nat, top: nat)
    requires IsImage(screen) && TextFits(screen, entered, width, height, x, y)
    requires i < |Split(entered)| && j < |Split(entered)[i]|
    requires left == x + j * width && top == y + i * height
    ensures SoFar(entered, width, height, x, y, i, j + 1)
            == SoFar(entered, width, height, x, y, i, j) + [Placement(Split(entered)[i][j], left, top)]
    ensures AllFit(SoFar(entered, width, height, x, y, i, j + 1), width, height, |screen|, |screen[0]|)
  {
    var lines := Split(entered);
    PlacementsSoFar(lines, width, height, x, y, i, j + 1);
    assert LinePlacements(lines[i][..j + 1], width, x, top)
           == LinePlacements(lines[i][..j], width, x, top) + [Placement(lines[i][j], left, top)];
  }

  /** Measuring character j of line i, whose cell is at (left, top), and
      assigning the result to the character's key is storing one more sample:
      the one of that character's cell, which lies inside the screenshot. */
  lemma MeasureStep(t: Table, screen: Image, entered: string, width: nat, height: nat,
                    x: nat, y: nat, i: nat, j: nat, left: nat, top: nat)
    requires UniqueKeys(t) && IsImage(screen) && TextFits(screen, entered, width, height, x, y)
    requires i < |Split(entered)| && j < |Split(entered)[i]|
    requires left == x + j * width && top == y + i * height
    ensures 0 < width && 0 < height && top + height <= |screen| && left + width <= |screen[0]|
    ensures InBlock(GrayOf(screen), left, top, width, height)
    ensures AllFit(SoFar(entered, width, height, x, y, i, j), width, height, |screen|, |screen[0]|)
    ensures AllFit(SoFar(entered, width, height, x, y, i, j + 1), width, height, |screen|, |screen[0]|)
    ensures Store(t, Samples(GrayOf(screen), SoFar(entered, width, height, x, y, i, j + 1), width, height))
            == Assign(Store(t, Samples(GrayOf(screen), SoFar(entered, width, height, x, y, i, j), width, height)),
                      Split(entered)[i][j], CellAverage(GrayOf(screen), left, top, width, height))
  {
    var grid := GrayOf(screen);
    var p := Placement(Split(entered)[i][j], left, top);
    SoFarStep(screen, entered, width, height, x, y, i, j, left, top);
    SamplesAppend(grid, SoFar(entered, width, height, x, y, i, j), p, width, height);
    StoreAppend(t, Samples(grid, SoFar(entered, width, height, x, y, i, j), width, height),
                (p.symbol, CellAverage(grid, left, top, width, height)));
  }

  class AsciiArtPreset {
    var symbolWidth: nat
    var symbolHeight: nat
    var brightness: Table

    /** The table is a dictionary and, since keys come from the lines of the
        reference text, no key is a line break. */
    ghost predicate Valid()
      reads this
    {
      UniqueKeys(brightness) && '\n' !in KeySet(brightness)
    }

    /** A fresh preset: no cell size yet and an empty table. */
    constructor ()
      ensures Valid()
      ensures symbolWidth == 0 && symbolHeight == 0 && brightness == []
    {
      symbolWidth := 0;
      symbolHeight := 0;
      brightness := [];
    }

    /** Measures the characters of line i of `entered`, left to right, in
        cells whose top edge is at `top`, assigning each measurement to the
        character's key: on top of the samples of the lines before line i,
        the table then holds those of line i as well. */
    method MeasureLine(img: array2<real>, ghost screen: Image, ghost t0: Table, entered: string,
                       symbolWidth: nat, symbolHeight: nat, x: nat, y: nat, i: nat, top: nat)
      requires UniqueKeys(t0) && IsImage(screen)
      requires img.Length0 == |screen| && img.Length1 == |screen[0]| && Rows(img) == GrayOf(screen)
      requires TextFits(screen, entered, symbolWidth, symbolHeight, x, y)
      requires i < |Split(entered)| && top == y + i * symbolHeight
      requires AllFit(Placements(Split(entered)[..i], symbolWidth, symbolHeight, x, y),
                      symbolWidth, symbolHeight, |screen|, |screen[0]|)
      requires brightness == Store(t0, Samples(GrayOf(screen), Placements(Split(entered)[..i], symbolWidth, symbolHeight, x, y),
                                               symbolWidth, symbolHeight))
      modifies this
      ensures this.symbolWidth == old(this.symbolWidth) && this.symbolHeight == old(this.symbolHeight)
      ensures AllFit(Placements(Split(entered)[..i + 1], symbolWidth, symbolHeight, x, y),
                     symbolWidth, symbolHeight, |screen|, |screen[0]|)
      ensures brightness == Store(t0, Samples(GrayOf(screen), Placements(Split(entered)[..i + 1], symbolWidth, symbolHeight, x, y),
                                              symbolWidth, symbolHeight))
    {
      var symbolSet := Split(entered)[i];
      SoFarLine(entered, symbolWidth, symbolHeight, x, y, i);
      var left: nat := x;
      for j := 0 to |symbolSet|
        invariant left == x + j * symbolWidth
        invariant this.symbolWidth == old(this.symbolWidth) && this.symbolHeight == old(this.symbolHeight)
        invariant AllFit(SoFar(entered, symbolWidth, symbolHeight, x, y, i, j), symbolWidth, symbolHeight, |screen|, |screen[0]|)
        invariant brightness == Store(t0, Samples(GrayOf(screen), SoFar(entered, symbolWidth, symbolHeight, x, y, i, j),
                                                  symbolWidth, symbolHeight))
      {
        MeasureStep(t0, screen, entered, symbolWidth, symbolHeight, x, y, i, j, left, top);
        var b := AverageBrightness(img, left, top, symbolWidth, symbolHeight);
        brightness := Assign(brightness, symbolSet[j], b);
        left := left + symbolWidth;
      }
    }

    /** Measures every line of `entered`, top to bottom, each line
        `symbolHeight` lower than the one before. */
    method MeasureLines(img: array2<real>, ghost screen: Image, entered: string,
                        symbolWidth: nat, symbolHeight: nat, x: nat, y: nat)
      requires UniqueKeys(brightness) && IsImage(screen)
      requires img.Length0 == |screen| && img.Length1 == |screen[0]| && Rows(img) == GrayOf(screen)
      requires TextFits(screen, entered, symbolWidth, symbolHeight, x, y)
      modifies this
      ensures this.symbolWidth == old(this.symbolWidth) && this.symbolHeight == old(this.symbolHeight)
      ensures brightness == Generated(old(brightness), screen, entered, symbolWidth, symbolHeight, x, y)
    {
      ghost var t0 := brightness;
      var symbolSets := Split(entered);
      var top: nat := y;
      assert symbolSets[..0] == [];
      for i := 0 to |symbolSets|
        invariant top == y + i * symbolHeight
        invariant this.symbolWidth == old(this.symbolWidth) && this.symbolHeight == old(this.symbolHeight)
        invariant AllFit(Placements(symbolSets[..i], symbolWidth, symbolHeight, x, y),
                         symbolWidth, symbolHeight, |screen|, |screen[0]|)
        invariant brightness == Store(t0, Samples(GrayOf(screen), Placements(symbolSets[..i], symbolWidth, symbolHeight, x, y),
                                                  symbolWidth, symbolHeight))
      {
        MeasureLine(img, screen, t0, entered, symbolWidth, symbolHeight, x, y, i, top);
        assert (i + 1) * symbolHeight == i * symbolHeight + symbolHeight;
        top := top + symbolHeight;
      }
      assert symbolSets[..|symbolSets|] == symbolSets;
    }

    /** Records the cell size and measures every character of `entered` in
        the screenshot, line by line and left to right, assigning each
        measurement to the character's key. */
    method GeneratePreset(screen: Image, entered: string, symbolWidth: nat, symbolHeight: nat, x: nat, y: nat)
      requires Valid() && IsImage(screen)
      requires TextFits(screen, entered, symbolWidth, symbolHeight, x, y)
      modifies this
      ensures Valid()
      ensures this.symbolWidth == symbolWidth && this.symbolHeight == symbolHeight
      ensures brightness == Generated(old(brightness), screen, entered, symbolWidth, symbolHeight, x, y)
    {
      this.symbolWidth := symbolWidth;
      this.symbolHeight := symbolHeight;
      var img := Grayscale(screen);
      MeasureLines(img, screen, entered, symbolWidth, symbolHeight, x, y);
      GeneratedNoBreak(old(brightness), screen, entered, symbolWidth, symbolHeight, x, y);
    }
  }
}
