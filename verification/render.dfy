/** `create_pi_image` without the file save: a black grid of the planned
    size, filled in row-major order with the colour of each digit. */
module Render {
  import opened Options
  import opened Palette
  import opened Dimensions
  import Reader

  /** A pixel grid held row by row: `g[y][x]` is PIL's `pixels[x, y]`. */
  type Grid = seq<seq<RGB>>

  predicate IsGrid(g: Grid, w: nat, h: nat) {
    |g| == h && forall y | 0 <= y < h :: |g[y]| == w
  }

  datatype Image = Image(width: nat, height: nat, pixels: Grid)

  /** `Image.new('RGB', (w, h), color=(0, 0, 0))`. */
  function Blank(w: nat, h: nat): (g: Grid)
    ensures IsGrid(g, w, h)
    ensures forall y, x | 0 <= y < h && 0 <= x < w :: g[y][x] == Black
  {
    seq(h, _ => seq(w, _ => Black))
  }

  /** `pixels[x, y] = c`. */
  function Put(g: Grid, x: nat, y: nat, c: RGB): (g': Grid)
    requires y < |g| && x < |g[y]|
  {
    g[y := g[y][x := c]]
  }

  /** A write keeps the grid's shape, sets cell (x, y) to `c`, and leaves
      every other cell as it was. */
  lemma PutCell(g: Grid, w: nat, h: nat, x: nat, y: nat, c: RGB)
    requires IsGrid(g, w, h) && x < w && y < h
    ensures IsGrid(Put(g, x, y, c), w, h)
    ensures Put(g, x, y, c)[y][x] == c
    ensures forall r, col | 0 <= r < h && 0 <= col < w && (r != y || col != x) ::
      Put(g, x, y, c)[r][col] == g[r][col]
  {
  }

  /** Cell (x, y) of a `w`-wide grid holds row-major index `y * w + x`; the
      loop's `x = i % w`, `y = i // w` is the one cell holding index `i`. */
  lemma CellIndex(w: nat, x: nat, y: nat)
    requires x < w
    ensures (y * w + x) / w == y && (y * w + x) % w == x
  {
    var n := y * w + x;
    var q, r := n / w, n % w;
    assert q * w + r == n && 0 <= r < w;
    if q > y {
      MulMono(y + 1, q, w);
      assert false;
    }
    if q < y {
      MulMono(q + 1, y, w);
      assert false;
    }
  }

  /** The loop's coordinates of index `i`: column `i % w` in range, and
      row `i // w` such that cell (i % w, i // w) holds index `i`. */
  lemma DivMod(i: nat, w: nat)
    requires w > 0
    ensures 0 <= i % w < w
    ensures (i / w) * w + i % w == i
  {
  }

  /** The pixel the loop leaves at (x, y) after its first `k` iterations. */
  function Painted(digits: string, scheme: Scheme, w: nat, k: nat, x: nat, y: nat): (color: RGB)
    requires k <= |digits|
  {
    if y * w + x < k then Lookup(scheme, digits[y * w + x]) else Black
  }

  /** The grid after the first `k` iterations of the fill loop of
      `create_pi_image`; a digit whose row `i // w` is not below `h` is
      skipped, as the loop's guard skips it. */
  function FillLoop(digits: string, scheme: Scheme, w: nat, h: nat, k: nat): (g: Grid)
    requires k <= |digits|
    requires w > 0 || k == 0
    ensures IsGrid(g, w, h)
    decreases k
  {
    if k == 0 then
      Blank(w, h)
    else
      var i := k - 1;
      var g := FillLoop(digits, scheme, w, h, i);
      var x, y := i % w, i / w;
      if y < h then Put(g, x, y, Lookup(scheme, digits[i])) else g
  }

  /** After the first `k` iterations each cell holds the colour of its
      row-major index when that index is below `k`, and black otherwise. */
  lemma {:induction false} FillLoopPainted(digits: string, scheme: Scheme, w: nat, h: nat, k: nat)
    requires k <= |digits|
    requires w > 0 || k == 0
    ensures var g := FillLoop(digits, scheme, w, h, k);
      forall y, x | 0 <= y < h && 0 <= x < w :: g[y][x] == Painted(digits, scheme, w, k, x, y)
    decreases k
  {
    if k > 0 {
      FillLoopPainted(digits, scheme, w, h, k - 1);
      FillStep(digits, scheme, w, h, k - 1, FillLoop(digits, scheme, w, h, k - 1), FillLoop(digits, scheme, w, h, k));
    }
  }

  /** One iteration of the fill loop paints cell (i % w, i // w), if that
      row exists, and leaves every other cell alone. */
  lemma FillStep(digits: string, scheme: Scheme, w: nat, h: nat, i: nat, g: Grid, g': Grid)
    requires i < |digits| && w > 0
    requires IsGrid(g, w, h)
    requires forall y, x | 0 <= y < h && 0 <= x < w :: g[y][x] == Painted(digits, scheme, w, i, x, y)
    requires g' == if i / w < h then Put(g, i % w, i / w, Lookup(scheme, digits[i])) else g
    ensures IsGrid(g', w, h)
    ensures forall y, x | 0 <= y < h && 0 <= x < w :: g'[y][x] == Painted(digits, scheme, w, i + 1, x, y)
  {
    forall y, x | 0 <= y < h && 0 <= x < w
      ensures g'[y][x] == Painted(digits, scheme, w, i + 1, x, y)
    {
      CellIndex(w, x, y);
      if y * w + x == i {
        assert y == i / w && x == i % w;
      } else {
        assert y != i / w || x != i % w;
      }
    }
  }

  /** Given room for all `n` digits, the loop's "just in case" guard
      `y < height` holds for every index it meets. */
  lemma GuardHolds(n: nat, w: nat, h: nat, i: nat)
    requires w > 0 && w * h >= n && i < n
    ensures i / w < h
  {
    if i / w >= h {
      MulMono(h, i / w, w);
      assert false;
    }
  }

  /** With room for every digit, the finished loop has put digit `i` in
      the cell holding row-major index `i`. */
  lemma FillPlacesAll(digits: string, scheme: Scheme, w: nat, h: nat)
    requires w > 0 || |digits| == 0
    requires w * h >= |digits|
    ensures var g := FillLoop(digits, scheme, w, h, |digits|);
      forall i | 0 <= i < |digits| :: CellAt(g, w, h, i) == Lookup(scheme, digits[i])
  {
    var g := FillLoop(digits, scheme, w, h, |digits|);
    forall i | 0 <= i < |digits|
      ensures CellAt(g, w, h, i) == Lookup(scheme, digits[i])
    {
      FillPlacesOne(digits, scheme, w, h, i);
    }
  }

  lemma FillPlacesOne(digits: string, scheme: Scheme, w: nat, h: nat, i: nat)
    requires w * h >= |digits| && i < |digits|
    ensures CellAt(FillLoop(digits, scheme, w, h, |digits|), w, h, i) == Lookup(scheme, digits[i])
  {
    GuardHolds(|digits|, w, h, i);
    DivMod(i, w);
    FillLoopPainted(digits, scheme, w, h, |digits|);
    var g := FillLoop(digits, scheme, w, h, |digits|);
    var x, y := i % w, i / w;
    assert |g[y]| == w;
    assert g[y][x] == Painted(digits, scheme, w, |digits|, x, y);
  }

  /** The finished loop leaves black every cell whose row-major index is
      past the last digit. */
  lemma FillBlackPastEnd(digits: string, scheme: Scheme, w: nat, h: nat)
    requires w > 0 || |digits| == 0
    ensures var g := FillLoop(digits, scheme, w, h, |digits|);
      forall y, x | 0 <= y < h && 0 <= x < w && y * w + x >= |digits| :: g[y][x] == Black
  {
    FillLoopPainted(digits, scheme, w, h, |digits|);
  }

  /** The fill loop run to the end on a grid with room for every digit:
      digit `i` sits at (i % w, i // w) and every cell past the last digit
      is black. */
  function FilledGrid(digits: string, scheme: Scheme, w: nat, h: nat): (g: Grid)
    requires w > 0 || |digits| == 0
    requires w * h >= |digits|
    ensures IsGrid(g, w, h)
    ensures forall i | 0 <= i < |digits| :: CellAt(g, w, h, i) == Lookup(scheme, digits[i])
    ensures forall y, x | 0 <= y < h && 0 <= x < w && y * w + x >= |digits| :: g[y][x] == Black
  {
    FillPlacesAll(digits, scheme, w, h);
    FillBlackPastEnd(digits, scheme, w, h);
    FillLoop(digits, scheme, w, h, |digits|)
  }

  /** `create_pi_image(digits, scheme, _)` up to the save: the fill loop on
      a black grid of the planned size, which has room for every digit, so
      digit `i` lands at (i % width, i // width) and the rest stays black. */
  function CreateImage(digits: string, scheme: Scheme): (img: Image)
    ensures img.width == Plan(|digits|).width && img.height == Plan(|digits|).height
    ensures |digits| > 0 ==> img.width > 0
    ensures img.width * img.height >= |digits|
    ensures img.pixels == FilledGrid(digits, scheme, img.width, img.height)
    ensures IsGrid(img.pixels, img.width, img.height)
    ensures forall i | 0 <= i < |digits| :: CellAt(img.pixels, img.width, img.height, i) == Lookup(scheme, digits[i])
    ensures forall y, x | 0 <= y < img.height && 0 <= x < img.width && y * img.width + x >= |digits| ::
      img.pixels[y][x] == Black
  {
    var d := Plan(|digits|);
    Image(d.width, d.height, FilledGrid(digits, scheme, d.width, d.height))
  }

  /** `create_pi_image` up to the save, as it is written: a black grid of
      the planned size, then the fill loop. It builds the same image as the
      functional definition. */
  method CreatePiImage(digits: string, scheme: Scheme) returns (img: Image)
    ensures img == CreateImage(digits, scheme)
    ensures IsGrid(img.pixels, img.width, img.height)
  {
    var d := Plan(|digits|);
    CreateImageFill(digits, scheme);
    var pixels := FillPixels(digits, scheme, d.width, d.height);
    img := Image(d.width, d.height, pixels);
  }

  /** The loop of `create_pi_image` on a black `width x height` grid: one
      guarded write per digit, at column `i % width` and row `i // width`. */
  method FillPixels(digits: string, scheme: Scheme, width: nat, height: nat) returns (pixels: Grid)
    requires width > 0 || |digits| == 0
    ensures pixels == FillLoop(digits, scheme, width, height, |digits|)
    ensures IsGrid(pixels, width, height)
  {
    pixels := Blank(width, height);
    var i := 0;
    while i < |digits|
      invariant 0 <= i <= |digits|
      invariant pixels == FillLoop(digits, scheme, width, height, i)
    {
      pixels := PaintDigit(pixels, digits, scheme, width, height, i);
      i := i + 1;
    }
  }

  /** One pass of the loop body: `x = i % width`, `y = i // width`, and the
      guarded write of digit `i`'s colour. */
  method PaintDigit(pixels: Grid, digits: string, scheme: Scheme, width: nat, height: nat, i: nat)
    returns (next: Grid)
    requires i < |digits| && width > 0
    requires IsGrid(pixels, width, height)
    ensures IsGrid(next, width, height)
    ensures pixels == FillLoop(digits, scheme, width, height, i) ==> next == FillLoop(digits, scheme, width, height, i + 1)
  {
    var x := i % width;
    var y := i / width;
    FillLoopNext(digits, scheme, width, height, i);
    if y < height {
      next := Put(pixels, x, y, Lookup(scheme, digits[i]));
    } else {
      next := pixels;
    }
  }

  /** The recursive definition read forwards: iteration `i` extends the
      grid of the first `i` iterations. */
  lemma FillLoopNext(digits: string, scheme: Scheme, w: nat, h: nat, i: nat)
    requires i < |digits| && w > 0
    ensures var g := FillLoop(digits, scheme, w, h, i);
      && (i / w < h ==> i / w < |g| && i % w < |g[i / w]|)
      && FillLoop(digits, scheme, w, h, i + 1) ==
           if i / w < h then Put(g, i % w, i / w, Lookup(scheme, digits[i])) else g
  {
    var g := FillLoop(digits, scheme, w, h, i);
    assert 0 <= i % w < w;
    if i / w < h {
      assert |g[i / w]| == w;
    }
  }

  lemma CreateImageFill(digits: string, scheme: Scheme)
    ensures |digits| == 0 || Plan(|digits|).width > 0
    ensures CreateImage(digits, scheme) ==
      Image(Plan(|digits|).width, Plan(|digits|).height,
            FillLoop(digits, scheme, Plan(|digits|).width, Plan(|digits|).height, |digits|))
  {
  }

  /** The cell holding row-major index `i`: `pixels[i % w, i // w]`. */
  function CellAt(g: Grid, w: nat, h: nat, i: nat): (color: RGB)
    requires IsGrid(g, w, h)
    requires i < w * h
  {
    GuardHolds(w * h, w, h, i);
    DivMod(i, w);
    g[i / w][i % w]
  }

  /** The colours of the first `n` cells of a `w`-wide grid, in row-major order. */
  function RowMajor(g: Grid, w: nat, h: nat, n: nat): (colors: seq<RGB>)
    requires IsGrid(g, w, h)
    requires n <= w * h
    ensures |colors| == n
    ensures forall i | 0 <= i < n :: colors[i] == CellAt(g, w, h, i)
  {
    if n == 0 then []
    else RowMajor(g, w, h, n - 1) + [CellAt(g, w, h, n - 1)]
  }

  /** The colour of every digit under `scheme`. */
  function Paint(scheme: Scheme, digits: string): (colors: seq<RGB>)
    ensures |colors| == |digits|
  {
    seq(|digits|, i requires 0 <= i < |digits| => Lookup(scheme, digits[i]))
  }

  /** Reading the first `|digits|` cells of a rendered image back in
      row-major order gives the digits' colours. */
  lemma ReadBackImage(digits: string, scheme: Scheme)
    ensures var img := CreateImage(digits, scheme);
      RowMajor(img.pixels, img.width, img.height, |digits|) == Paint(scheme, digits)
  {
  }

  /** The digit string a run of colours spells under `scheme`, or `None` if
      some colour is not one of the scheme's. */
  function DecodeAll(scheme: Scheme, colors: seq<RGB>): (r: Option<string>)
    ensures r.Some? ==> |r.value| == |colors|
  {
    if |colors| == 0 then Some([])
    else
      match (DecodeAll(scheme, colors[..|colors| - 1]), Decode(scheme, colors[|colors| - 1]))
      case (Some(front), Some(c)) => Some(front + [c])
      case _ => None
  }

  lemma PaintSnoc(scheme: Scheme, front: string, c: char)
    ensures Paint(scheme, front + [c]) == Paint(scheme, front) + [Lookup(scheme, c)]
  {
  }

  lemma DecodeAllSnoc(scheme: Scheme, colors: seq<RGB>, color: RGB)
    ensures DecodeAll(scheme, colors + [color]) ==
      match (DecodeAll(scheme, colors), Decode(scheme, color))
      case (Some(front), Some(c)) => Some(front + [c])
      case _ => None
  {
    assert (colors + [color])[..|colors|] == colors;
  }

  /** Under a predefined scheme, painting a string and decoding the colours
      gives the string back when it is all digits, and nothing otherwise. */
  lemma {:induction false} DecodePaint(k: nat, digits: string)
    requires k < |Schemes|
    ensures DecodeAll(Schemes[k], Paint(Schemes[k], digits)) == if AllDigits(digits) then Some(digits) else None
    decreases |digits|
  {
    var scheme := Schemes[k];
    if |digits| > 0 {
      var front, last := digits[..|digits| - 1], digits[|digits| - 1];
      assert digits == front + [last];
      PaintSnoc(scheme, front, last);
      DecodeAllSnoc(scheme, Paint(scheme, front), Lookup(scheme, last));
      DecodePaint(k, front);
      DecodeLookup(k, last);
      assert AllDigits(digits) <==> AllDigits(front) && IsDigit(last);
    }
  }

  /** An image rendered from a digit string under a predefined scheme
      decodes back to that digit string: no digit is lost or confused. */
  lemma ImageRoundTrip(k: nat, digits: string)
    requires k < |Schemes|
    requires AllDigits(digits)
    ensures var img := CreateImage(digits, Schemes[k]);
      DecodeAll(Schemes[k], RowMajor(img.pixels, img.width, img.height, |digits|)) == Some(digits)
  {
    ReadBackImage(digits, Schemes[k]);
    DecodePaint(k, digits);
  }

  /** The end-to-end case of a one-entry scheme on the text "3.14": only the
      field after the `.` is drawn, so '1' lands at (0, 0) in its colour and
      the unmapped '4' at (1, 0) in black, on a 4 x 2 grid. */
  lemma OneEntrySchemeExample()
    ensures var img := CreateImage(Reader.ReadDigits("3.14", 100), map['1' := RGB(10, 20, 30)]);
      && img.width == 4 && img.height == 2
      && img.pixels[0][0] == RGB(10, 20, 30)
      && img.pixels[0][1] == Black
      && img.pixels[1][3] == Black
  {
    Reader.ReadDigitsExampleShort();
    PlanHeightUnique(2, 2);
    RenderExample();
  }

  lemma RenderExample()
    ensures var g := FilledGrid("14", map['1' := RGB(10, 20, 30)], 4, 2);
      && g[0][0] == RGB(10, 20, 30)
      && g[0][1] == Black
      && g[1][3] == Black
  {
    var scheme := map['1' := RGB(10, 20, 30)];
    var g := FilledGrid("14", scheme, 4, 2);
    assert 0 / 4 == 0 && 0 % 4 == 0;
    assert 1 / 4 == 0 && 1 % 4 == 1;
    assert g[0][0] == Lookup(scheme, '1');
    assert g[0][1] == Lookup(scheme, '4');
    assert 1 * 4 + 3 >= 2;
  }
}
