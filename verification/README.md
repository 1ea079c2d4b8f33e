# IrrationalNumberToPixels in Dafny

This project models the pure core of `script.py`, a visualiser that turns the
digits of an irrational number into a 16:9 picture. It covers four parts:

- **Digit extraction.** `read_pi_digits` works on text that has already been
  read from the file. It strips the text, keeps `split('.')[1]` when the text
  holds a `.`, and cuts the result to `digit_limit` characters.
- **Colour schemes.** There are four constant tables from `'0'..'9'` to RGB.
  The lookup is `scheme.get(digit, (0, 0, 0))`.
- **Dimension planning.** `calculate_image_dimensions` is modelled in exact
  integer arithmetic:
  - the height is the least `h` with `16*h*h >= 9*n`;
  - the width is the least `w` with `9*w >= 16*h`.
- **Row-major fill.** This is the loop of `create_pi_image`. It starts from a
  black `w x h` grid and writes digit `i` at `(i % w, i // w)` when that row
  exists.

Modules:

- `Strings`: Python's `str.strip()` and `str.split(sep)`, plus `join` as their partner.
- `Reader`: `read_pi_digits` after the read.
- `Options`: the optional result of the decoder's search.
- `Palette`: the four schemes, the lookup, and a decoder that inverts it.
- `Dimensions`: `calculate_image_dimensions`.
- `Render`: the pixel grid, the fill loop (as a recursive function and as the
  imperative loop), and reading an image back into digits.

Three consequences of the code that are easy to misread:

- **The integer part is never drawn.** On the text `3.14` only the field
  after the `.` is kept, so the digits drawn are `1` and `4`. The grid is
  4 x 2, with `'1'` at (0, 0) and `'4'` at (1, 0).
  `Render.OneEntrySchemeExample` states this.
- **One million digits give a 1334 x 750 image.** The height is 750, since
  `16 * 750 * 750 = 9 * 1000000`. The width is
  `ceil(16/9 * 750) = ceil(1333.33...) = 1334`. `Dimensions.PlanMillion`
  states this.
- **`split('.')[1]` is not everything after the first `.`.** It is the run up
  to the second `.`, if there is one. `Reader.FractionalField` states this.

## Model

| member | source | states |
|---|---|---|
| Strings.Strip | script.py:8 | `strip()` returns a slice of the text that does not start or end with whitespace, and only whitespace is cut away on either side |
| Strings.StripUnique | script.py:8 | any split of the text into whitespace, then a middle that does not start or end with whitespace, then whitespace, has `strip()` as its middle |
| Strings.StripIdempotent | script.py:8 | stripping stripped text changes nothing |
| Strings.Find | script.py:10-11 | the index of the first `.`, or the length when there is none; no earlier character is the separator |
| Strings.Split | script.py:11 | `s.split(sep)`: always at least one piece; `Strings.SplitSecond` pins down its second piece, `Strings.SplitPieces` that no piece holds the separator, and `Strings.JoinSplit` and `Strings.SplitJoin` that it is the inverse of joining |
| Strings.SplitSecond | script.py:11 | `split(sep)[1]` is the text after the first separator, up to the next separator or the end |
| Strings.SplitPieces | script.py:10-11 | no piece of a split contains the separator, and the split has one piece exactly when the separator is absent |
| Strings.JoinSplit | script.py:11 | joining the pieces of `split(sep)` with `sep` gives back the original text |
| Strings.SplitJoin | script.py:11 | splitting a join of separator-free pieces gives back the pieces |
| Reader.FractionalField | script.py:10-13 | with a `.` the field is the text between the first `.` and the next `.` or the end, so it holds no `.`; without one it is the whole text |
| Reader.SliceTo | script.py:15 | `s[:stop]` is a prefix of `s` whose length is `min(stop, len(s))`, or `len(s) + stop` floored at 0 when `stop` is negative |
| Reader.ReadDigits | script.py:8-15 | the result is a prefix of the stripped text's fractional field and holds no `.`; its length is `min(len(field), limit)` for a non-negative limit and `len(field) + limit` floored at 0 for a negative one, and a field no longer than the limit comes back whole |
| Reader.ReadNumber | script.py:8-15 | on text `whole.frac`, with no whitespace at either end, the result is `frac[:limit]` |
| Reader.ReadDigitsExamplePi | script.py:8-15 | reading `3.14159` with limit 3 gives `141` |
| Reader.ReadDigitsExampleNoDot | script.py:12-15 | text without a `.` is kept whole under a larger limit |
| Reader.ReadDigitsExampleDefault | script.py:5-15 | under the default limit of one million, the text `2.71828` gives its whole fractional field `71828` |
| Palette.SchemeKeys | script.py:21-42 | each of the four schemes of `Palette.Schemes` (the constant `color_schemes`, its forty colours copied value for value) maps exactly the ten digits |
| Palette.LookupBlackIffNotDigit | script.py:21-42 | under each scheme a character is painted black exactly when it is not a digit |
| Palette.SchemeInjective | script.py:21-42 | each scheme gives distinct digits distinct colours |
| Palette.Lookup | script.py:65 | `scheme.get(c, (0, 0, 0))`: the scheme's colour for a key and black for anything else; `Palette.SchemeKeys` and `Palette.LookupBlackIffNotDigit` state what it gives under the four schemes, and `Palette.DecodeLookup` that it can be inverted |
| Palette.DecodeFrom | script.py:65 | the inverse search of the lookup at this line (the source has no decoder): a decoded character is a candidate that the scheme paints the given colour, and `None` means no candidate is painted that colour |
| Palette.DecodeLookup | script.py:21-42 | decoding a looked-up colour gives back the digit, and gives `None` for any other character |
| Dimensions.PlanHeight | script.py:49 | the height is the least `h` with `16*h*h >= 9*n`, which is `ceil(sqrt(n / (16/9)))` in exact arithmetic |
| Dimensions.PlanWidth | script.py:50 | the width is the least `w` with `9*w >= 16*h`, which is `ceil(16/9 * h)` |
| Dimensions.Plan | script.py:45-51 | `calculate_image_dimensions(n)`: the planned grid has at least `n` cells, the goal the comment states; zero digits give a 0 x 0 grid, and otherwise the grid has at least one row and is at least as wide as it is tall. `Dimensions.PlanHeight` and `Dimensions.PlanWidth` show each side is the least that fits |
| Dimensions.PlanTight | script.py:49-50 | a corollary of the least-ness of `Dimensions.PlanHeight` and `Dimensions.PlanWidth`: one row fewer would break the area bound, and one column fewer the 16:9 bound |
| Dimensions.PlanHeightUnique | script.py:49 | a height that fits while one row fewer does not is the planned height |
| Dimensions.PlanMillion | script.py:45-51 | one million digits give a 1334 x 750 grid |
| Render.Blank | script.py:58 | a new image is a `w x h` grid in which every cell is black |
| Render.Put | script.py:65 | `pixels[x, y] = c`: the grid with row `y`'s column `x` set to `c`; `Render.PutCell` states that nothing else changes |
| Render.PutCell | script.py:65 | a write keeps the grid `w x h`, sets cell `(x, y)` to `c`, and leaves every other cell as it was |
| Render.CellIndex | script.py:62-63 | cell `(x, y)` of a `w`-wide grid holds row-major index `y*w + x`, and that index maps back to `(x, y)` |
| Render.FillLoop | script.py:58-65 | the grid after the first `k` iterations of the loop, always `w x h`; `Render.FillLoopPainted` states its contents cell by cell and `Render.FillLoopNext` how one iteration extends it |
| Render.FillLoopPainted | script.py:58-65 | after the first `k` iterations, each cell holds the colour of its row-major index if that index is below `k`, and black otherwise |
| Render.FillStep | script.py:61-65 | one iteration paints cell `(i % w, i // w)` when that row exists, and leaves every other cell unchanged |
| Render.GuardHolds | script.py:64 | when the grid has room for all `n` digits, the "just in case" guard `y < height` holds at every index |
| Render.FillPlacesAll | script.py:61-65 | after the loop, digit `i` sits at `(i % w, i // w)` in its scheme colour |
| Render.FillBlackPastEnd | script.py:58-65 | after the loop, every cell whose row-major index is past the last digit is still black |
| Render.FilledGrid | script.py:58-65 | the filled grid is `w x h`, digit `i` sits at `(i % w, i // w)`, and cells past the last digit are black |
| Render.CreateImage | script.py:55-65 | the image has the planned width and height, has room for every digit, and is at least one pixel wide when there are digits; digit `i` sits at `(i % width, i // width)` in its scheme colour and every cell past the last digit is black |
| Render.CreatePiImage | script.py:55-65 | planning the size and then running the loop as written builds exactly the functional image |
| Render.FillPixels | script.py:58-65 | the imperative loop over the digits, started on a black grid, ends with the grid of the full recursive fill |
| Render.PaintDigit | script.py:62-65 | one pass of the loop body, with `x = i % width`, `y = i // width` and the guarded write, advances the fill by exactly one iteration |
| Render.FillLoopNext | script.py:61-65 | iteration `i` writes inside the grid whenever its row exists, and extends the grid of the first `i` iterations by that one write |
| Render.RowMajor | script.py:61-63 | reading the first `n` cells in row-major order gives `n` colours, the `i`-th taken from cell `(i % w, i // w)` |
| Render.ReadBackImage | script.py:55-65 | reading a rendered image back in row-major order gives the colours of the digits, in order |
| Render.DecodePaint | script.py:21-42 | under a predefined scheme, decoding the colours of a string gives the string back when it is all digits, and `None` otherwise |
| Render.ImageRoundTrip | script.py:55-65 | an image rendered from a digit string under a predefined scheme decodes back to exactly that string |
| Render.OneEntrySchemeExample | script.py:8-65 | the text `3.14` with a scheme that maps only `'1'` gives a 4 x 2 image: `'1'` at (0, 0) in its colour, `'4'` at (1, 0) in black, and an unused cell in black |

## Left out

- File I/O: `open`/`read`, and the `FileNotFoundError` path that prints a message and calls `exit(1)` (script.py:6-7, 16-18). Extraction is modelled on the text the file held.
- PIL: `Image.new`, `img.load` and `img.save` (script.py:58-59, 67). The image is a pure grid, `pixels[x, y]` is `g[y][x]`, and writing a file is not modelled. This includes how PIL would handle saving a 0 x 0 image when there are no digits.
- The console `print` after the save (script.py:68).
- `main` (script.py:71-82): the hard-coded file names, and the loop that renders one image per scheme under the name `{base}_{idx+1}.png`. It has no logic beyond calling the modelled operations. `Reader.DefaultDigitLimit` records the limit of one million that it passes.
- Dimensions.PlanHeight: IEEE-754 rounding in `16 / 9`, `math.sqrt` and `math.ceil` is not modelled. The model uses the exact ceilings, and does not claim to agree bit for bit with the float code at every `n`.
- Dimensions.PlanWidth: the float product `16 / 9 * height` is not modelled, for the same reason.
- Render.FillLoop: it requires `w > 0` whenever there are digits, and so do `Render.FillLoopPainted`, `Render.FillPlacesAll`, `Render.FillBlackPastEnd`, `Render.FilledGrid` and `Render.FillPixels`. With `w == 0`, Python's `i % width` would raise `ZeroDivisionError`. That cannot happen through `create_pi_image`, because the planner gives `w == 0` only for zero digits (`Dimensions.Plan`).
- Strings.Split: `split` is modelled only for a one-character separator, which is the only kind the code uses.
