# ASCII art converter: a Dafny model

This project models the core of the ASCII art converter, `asccii_art.py`. The core has four parts:

- **Grayscale conversion.** `grayscale` turns an RGB pixel grid into a grid of brightnesses using the luma weights 0.299, 0.587 and 0.114.
- **Presets.** An `AsciiArtPreset` records the cell size of a reference font. It also holds an insertion-ordered dictionary from each symbol to that symbol's brightness. `generate_preset` fills the dictionary: it splits the reference text into lines at `'\n'`. Character `j` of line `i` is measured as the average brightness of the cell whose top-left corner is `(x + j*width, y + i*height)`.
- **Symbol choice.** `__choose_symbol` scans the dictionary in insertion order. It replaces its candidate whenever an entry is strictly nearer to the cell's brightness than the best distance so far, which starts at the threshold 10.0. The result is the earliest entry at the smallest distance when that distance is below 10.0, and the empty string otherwise.
- **Conversion.** `convert` picks the size of the character grid from the cell's height-to-width ratio. It then resizes and grayscales the image and writes one line per row, each followed by `'\n'`.

The Dafny modules follow this structure:

- `Images` (`images.dfy`): pixels, luma, and `Grayscale`, which fills a fresh `array2<real>`.
- `Table` (`table.dfy`): the insertion-ordered dictionary as an association list. `Assign` is `d[k] = v`: an existing key keeps its position. `Store` applies a sequence of assignments.
- `Layout` (`layout.dfy`): `str.split('\n')`, and where each character of the reference text is sampled.
- `Preset` (`preset.dfy`): block sums and averages, and the class `AsciiArtPreset`. Its methods update `brightness` in place and are proved against the specification function `Generated`.
- `Converter` (`converter.dfy`): the nearest-symbol scan, the target resolution, the rendering of the text, and `Convert`.

Brightness values are `real`, so there is no floating-point rounding. `int()` at `asccii_art.py:118`, `:121` and `:125` truncates; it does not round. The model writes it as truncation of a non-negative real, and characterises each derived size as an exact integer quotient. A cell with no symbol within 10.0 adds the empty string (line 140), so a line can be shorter than the grid width; `Converter.LineShape` gives the exact condition.

## Model

| member | source | states |
|---|---|---|
| Images.Luma | asccii_art.py:17 | The weighted brightness of a pixel lies between its smallest and largest channel; a gray pixel (r = g = b) keeps its channel value |
| Images.Grayscale | asccii_art.py:8-20 | Returns a fresh array with the image's height and width whose cell (y, x) holds the luma of pixel (y, x) |
| Images.GrayImageIsUniform | asccii_art.py:8-20 | An image of constant gray level c gives a brightness grid of the same shape holding c everywhere |
| Table.Assign | asccii_art.py:82 | `d[k] = v` on the insertion-ordered dictionary keeps the keys unique (its full meaning is Table.AssignSpec) |
| Table.Store | asccii_art.py:78-85 | Assigning a sequence of entries in order keeps the keys unique and never shrinks the dictionary |
| Table.AssignSpec | asccii_art.py:82 | After `d[k] = v`, k maps to v; every other key keeps its value; the key set gains exactly k; existing keys keep their positions; a new key is appended at the end |
| Table.AssignKeySet | asccii_art.py:82 | An assignment adds its key, and only that key, to the key set |
| Table.StoreKeySet | asccii_art.py:78-85 | A run of assignments adds exactly the assigned keys to the key set |
| Table.StoreLastWins | asccii_art.py:78-85 | A key that is assigned several times holds the value of its last assignment |
| Table.StoreUntouched | asccii_art.py:78-85 | A key that is never assigned keeps its value (or stays absent) |
| Table.StoreKeepsPositions | asccii_art.py:78-85 | A run of assignments never moves an existing key; an entry whose key is never assigned stays unchanged |
| Layout.Split | asccii_art.py:77 | `split('\n')` always yields at least one line (the empty text gives one empty line) |
| Layout.SplitLinesHaveNoBreak | asccii_art.py:77 | No line produced by the split contains '\n' |
| Layout.JoinSplit | asccii_art.py:77 | Joining the split lines with '\n' gives the text back |
| Layout.SplitJoin | asccii_art.py:77 | Splitting a '\n'-joined non-empty list of break-free lines gives the list back |
| Layout.SplitBreak | asccii_art.py:77 | A break-free prefix followed by '\n' splits off as exactly one line |
| Layout.SplitLine | asccii_art.py:77 | A break-free text splits into itself alone |
| Layout.ConcatSplit | asccii_art.py:77 | The lines hold exactly the text's characters other than '\n', in order |
| Layout.PlacementSymbols | asccii_art.py:78-85 | The cells visit the characters of the lines in reading order, line after line |
| Layout.LayoutSymbols | asccii_art.py:77-85 | The text's cells carry exactly its characters other than '\n', in order |
| Layout.PlacementAt | asccii_art.py:78-85 | Character j of line i is visited j places after the characters of the earlier lines, at (x + j*width, y + i*height) |
| Layout.LastOccurrence | asccii_art.py:78-85 | When that character occurs neither later in its line nor in a later line, no later cell carries it |
| Layout.PlacementsSoFar | asccii_art.py:78-83 | The cells visited before character j of line i form a prefix of all cells |
| Layout.LayoutExample | asccii_art.py:77-85 | "ab\ncd" with 2-by-2 cells from the origin is sampled at (0,0), (2,0), (0,2) and (2,2) |
| Preset.AverageBrightness | asccii_art.py:58-66 | The loops add up every cell of the block at (x, y) and return the block's sum divided by width * height, i.e. the block's mean |
| Preset.CellAverageBounds | asccii_art.py:58-66 | The average of a block lies between any lower and upper bound of its cells |
| Preset.UniformCellAverage | asccii_art.py:58-66 | Over a block of constant brightness c the average is c, whatever the block's size |
| Preset.AsciiArtPreset.constructor | asccii_art.py:25-28 | A new preset has cell size 0 by 0 and an empty dictionary |
| Preset.AsciiArtPreset.GeneratePreset | asccii_art.py:68-86 | Records the cell size; the dictionary becomes the old dictionary with every character's cell average assigned in reading order; no key is ever '\n' |
| Preset.AsciiArtPreset.MeasureLines | asccii_art.py:77-85 | The outer loop, each line `symbolHeight` lower, leaves exactly the generated dictionary and does not touch the cell size |
| Preset.AsciiArtPreset.MeasureLine | asccii_art.py:79-83 | The inner loop extends the dictionary from the assignments of the earlier lines to those of this line as well |
| Preset.MeasureStep | asccii_art.py:80-83 | Measuring one character's cell, which lies inside the screenshot, and assigning it is storing one more sample |
| Preset.SamplesKeys | asccii_art.py:80-82 | The measured entries are keyed by the symbols of the visited cells |
| Preset.TextKeys | asccii_art.py:77-82 | The keys written are the characters of the reference text other than '\n' |
| Preset.GeneratedKeys | asccii_art.py:77-85 | Generating a preset adds exactly the characters of the reference text other than '\n' to the dictionary's keys |
| Preset.GeneratedNoBreak | asccii_art.py:77-82 | Generating a preset never adds '\n' as a key |
| Preset.GeneratedLastWins | asccii_art.py:80-82 | A character that repeats holds the average of the cell of its last occurrence |
| Preset.GeneratedAt | asccii_art.py:78-85 | Character j of line i, when it is not repeated later, holds the average of the cell at (x + j*width, y + i*height) |
| Preset.GeneratedKeepsOthers | asccii_art.py:78-85 | Keys already in the dictionary keep their positions; keys absent from the reference text also keep their values |
| Converter.ChooseSymbol | asccii_art.py:94-105 | The loop returns the symbol that the in-order scan with threshold 10.0 and strict `<` settles on |
| Converter.ScanByIndex | asccii_art.py:96-105 | The scan ends on the nearest entry within the threshold, the earliest one on a tie; it returns the threshold and "" when every entry is 10.0 or more away |
| Converter.NearestIsUnique | asccii_art.py:99-103 | At most one entry is nearest under the earliest-on-tie rule |
| Converter.NearestSymbolSpec | asccii_art.py:94-105 | The result is "" exactly when no entry is within 10.0, and otherwise the symbol of the nearest entry, the earliest on a tie |
| Converter.NearestSymbolIsKey | asccii_art.py:94-105 | The result is "" or one key of the dictionary |
| Converter.NearestExamples | asccii_art.py:94-105 | {a:0, b:5, c:9.9} gives "b" for 5.0 and "" for 20.0; {a:3, b:3} gives "a" for 3.0 |
| Converter.Trunc | asccii_art.py:121 | `int()` of a non-negative value is the integer n with n <= v < n + 1 |
| Converter.QuotientFromReal | asccii_art.py:121-125 | Truncating num / den computed in reals is the integer quotient of num by den |
| Converter.NoSizeGiven | asccii_art.py:117-118 | With no size given, the width is the integer part of width * symbolHeight / symbolWidth |
| Converter.HeightGiven | asccii_art.py:119-122 | With only the height given, k is zero exactly when the image height is zero; otherwise the width is the integer part of width * outputHeight * symbolHeight / (height * symbolWidth) |
| Converter.WidthGiven | asccii_art.py:123-126 | With only the width given, k is zero exactly when the image width or the cell height is zero; otherwise the height is the integer part of height * outputWidth * symbolWidth / (width * symbolHeight) |
| Converter.TargetResolution | asccii_art.py:115-128 | The only failure is a division by zero; a given output width or height is kept, and with no size given the height is the image's own |
| Converter.TargetResolutionSpec | asccii_art.py:115-128 | Across all four branches: division by zero happens exactly for a zero cell width, or for a zero divisor in the branch that derives the missing size; given sizes are kept and a missing one is the exact integer quotient |
| Converter.LineShape | asccii_art.py:139-140 | A row's text has at most one character per cell, and exactly one per cell exactly when every cell found a symbol; all its characters are keys |
| Converter.RenderBreaks | asccii_art.py:138-142 | The output holds exactly one '\n' per row and, when there are rows, ends with '\n' |
| Converter.RenderIsJoin | asccii_art.py:138-142 | The output is the rows' lines joined by '\n' with a final '\n' |
| Converter.RenderLines | asccii_art.py:138-142 | Splitting the output at '\n' gives back the rows' lines in order, then the empty text after the final break |
| Converter.TwoToneExample | asccii_art.py:138-142 | With the preset {'.': 0, '#': 255}, a black two-cell row renders as "..\n" and a white one as "##\n" |
| Converter.RenderRows | asccii_art.py:135-142 | The nested loops produce exactly the rendering of the brightness array |
| Converter.Convert | asccii_art.py:108-144 | Fails with the resolution's error, or with EmptySize for a zero target side; otherwise returns the rendering of the grayscaled image resized to the target resolution |

## Left out

- Saving and loading presets as JSON (`asccii_art.py:34-55`) and the constructor's `filename` argument (line 30) are file I/O and are not modelled.
- Image decoding (`Image.open`, `plt.imread`) is not modelled. `GeneratePreset` takes the decoded screenshot as a pixel grid. `Convert` takes the original width and height instead of a file.
- Resizing (`img.resize` with `Image.ANTIALIAS`) and the `temp.png` round trip are not modelled. The resize is a function parameter; it is only required to return an image of the requested shape.
- A zero target width or height is modelled as `Failure(EmptySize)`. This stands in for the imaging library's refusal to resize to an empty image.
- A division by zero in `koeff` or `k` is modelled as `Failure(DivisionByZero)`.
- Floating-point rounding is not modelled, because brightness values are exact reals.
- The 0-1 versus 0-255 channel scale is not modelled. Only the first three channels of a pixel are read; an alpha channel is ignored.
- `main.py` (the command-line entry point) is not part of this model.
- Preset keys are single characters. Multi-character keys from a hand-edited preset file are not modelled.
- The defaults `x = 0, y = 0` and `output_width = output_height = 0` are ordinary parameters; callers pass them explicitly.
- Preset.AsciiArtPreset.GeneratePreset: requires every sampled cell to lie inside the screenshot and to be non-empty. The source instead raises `IndexError` or `ZeroDivisionError` partway through, after some keys have been assigned. That partial update is not modelled.
- Images.Grayscale: requires a non-empty rectangular image. On an empty grid the source raises at `img[0]`; a row shorter than the first raises `IndexError` at line 17; a row longer than the first is silently cut to the first row's width. These cases are not modelled.
- Preset.AsciiArtPreset.GeneratePreset and Converter.Convert: sizes and origins are natural numbers, while the source takes Python `int`s. In the source, a negative `x` or `y` reads from the far edge of the screenshot (numpy wraps negative indices at line 64). A negative `symbol_width` or `symbol_height` makes the loops at lines 62-63 empty, so every symbol gets a zero brightness without error, unless the other side is zero, which raises `ZeroDivisionError`. A negative output size reaches `img.resize` and raises. None of this is modelled.
