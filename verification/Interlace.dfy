/** Adam7 interlacing (section 2.6 of RFC 2083) and the row order of interlaced GIFs (Appendix E
    of GIF89a), as models/image_decode.c walks them. */
module Interlacing {
  import opened BitStreams
  import opened ByteTexts
  import opened PngFilters

  // ----- the seven passes

  function StartX(p: nat): nat { if p == 1 then 4 else if p == 3 then 2 else if p == 5 then 1 else 0 }

  function StartY(p: nat): nat { if p == 2 then 4 else if p == 4 then 2 else if p == 6 then 1 else 0 }

  function StepX(p: nat): nat { if p < 2 then 8 else if p < 4 then 4 else if p < 6 then 2 else 1 }

  function StepY(p: nat): nat { if p < 3 then 8 else if p < 5 then 4 else 2 }

  /** An image of `bits` bits a pixel, in one pass or seven. */
  datatype Layout = Layout(width: nat, height: nat, bits: nat, interlaced: bool)
  {
    function Passes(): nat { if interlaced then 7 else 1 }

    function PassWidth(p: nat): nat { if interlaced then (width + StepX(p) - StartX(p) - 1) / StepX(p) else width }

    function PassHeight(p: nat): nat { if interlaced then (height + StepY(p) - StartY(p) - 1) / StepY(p) else height }

    /** Where a pass puts the pixel at column `x` of row `y`. */
    function AtX(p: nat, x: nat): nat { if interlaced then StartX(p) + x * StepX(p) else x }

    function AtY(p: nat, y: nat): nat { if interlaced then StartY(p) + y * StepY(p) else y }

    /** The pass a pixel belongs to. */
    function PassOf(ix: nat, iy: nat): (p: nat)
      ensures p < Passes()
    {
      if !interlaced then 0
      else if iy % 2 == 1 then 6
      else if ix % 2 == 1 then 5
      else if iy % 4 == 2 then 4
      else if ix % 4 == 2 then 3
      else if iy % 8 == 4 then 2
      else if ix % 8 == 4 then 1
      else 0
    }

    function ColumnOf(p: nat, ix: nat): nat { if interlaced then ix / StepX(p) else ix }

    function RowOf(p: nat, iy: nat): nat { if interlaced then iy / StepY(p) else iy }

    function Stride(p: nat): nat { (PassWidth(p) * bits + 7) / 8 }

    function PixelBytes(): nat { (bits + 7) / 8 }

    function PassBytes(p: nat): nat
    {
      if PassWidth(p) == 0 || PassHeight(p) == 0 then 0 else Total(PassHeight(p), Stride(p) + 1)
    }

    /** The bytes of the passes before `p`. */
    function Offset(p: nat): nat { if p == 0 then 0 else Offset(p - 1) + PassBytes(p - 1) }
  }

  // One axis of a pass: the places `start`, `start + step`, `start + 2 * step`, ...

  ghost predicate Axis(start: nat, step: nat) { step in {1, 2, 4, 8} && start < step }

  lemma AxisBound(start: nat, step: nat, n: nat, k: nat)
    requires Axis(start, step)
    ensures k < (n + step - start - 1) / step <==> start + k * step < n
  {
    if step == 1 {
    } else if step == 2 {
    } else if step == 4 {
    } else {
    }
  }

  lemma AxisPlace(start: nat, step: nat, k: nat)
    requires Axis(start, step)
    ensures (start + k * step) / step == k && (start + k * step) % step == start
  {
    if step == 1 {
    } else if step == 2 {
    } else if step == 4 {
    } else {
    }
  }

  lemma AxisOf(start: nat, step: nat, v: nat)
    requires Axis(start, step) && v % step == start
    ensures start + v / step * step == v
  {
  }

  lemma Remainders(v: nat)
    ensures v % 4 == v % 8 % 4 && v % 2 == v % 8 % 2 && v % 1 == 0
  {
    var q, r := v / 8, v % 8;
    assert v == 8 * q + r;
    ByFours(2 * q, r);
    ByTwos(4 * q, r);
  }

  lemma ByFours(k: nat, r: nat)
    ensures (4 * k + r) % 4 == r % 4
  {
  }

  lemma ByTwos(k: nat, r: nat)
    ensures (2 * k + r) % 2 == r % 2
  {
  }

  lemma PassAxes(p: nat)
    requires p < 7
    ensures Axis(StartX(p), StepX(p)) && Axis(StartY(p), StepY(p))
  {
  }

  /** A pixel's pass is the one whose axes it lies on. */
  lemma OnAxes(p: nat, l: Layout, ix: nat, iy: nat)
    requires p < 7 && l.interlaced
    ensures l.PassOf(ix, iy) == p <==> ix % StepX(p) == StartX(p) && iy % StepY(p) == StartY(p)
  {
    Remainders(ix);
    Remainders(iy);
  }

  /** The pass of a pixel, by the pattern of section 2.6 of RFC 2083 (its passes counted from 1). */
  lemma PassPattern(l: Layout, ix: nat, iy: nat)
    requires l.interlaced
    ensures l.PassOf(ix, iy) + 1 == [
      [1, 6, 4, 6, 2, 6, 4, 6],
      [7, 7, 7, 7, 7, 7, 7, 7],
      [5, 6, 5, 6, 5, 6, 5, 6],
      [7, 7, 7, 7, 7, 7, 7, 7],
      [3, 6, 4, 6, 3, 6, 4, 6],
      [7, 7, 7, 7, 7, 7, 7, 7],
      [5, 6, 5, 6, 5, 6, 5, 6],
      [7, 7, 7, 7, 7, 7, 7, 7]][iy % 8][ix % 8]
  {
    Remainders(ix);
    Remainders(iy);
    PatternRow(ix % 8, iy % 8, l);
    PatternPeriod(l, ix, iy);
  }

  lemma PatternPeriod(l: Layout, ix: nat, iy: nat)
    ensures l.PassOf(ix, iy) == l.PassOf(ix % 8, iy % 8)
  {
    Remainders(ix);
    Remainders(iy);
  }

  lemma PatternRow(c: nat, r: nat, l: Layout)
    requires c < 8 && r < 8 && l.interlaced
    ensures r % 2 == 1 ==> l.PassOf(c, r) == 6
    ensures r == 0 ==> l.PassOf(c, r) + 1 == [1, 6, 4, 6, 2, 6, 4, 6][c]
    ensures r == 4 ==> l.PassOf(c, r) + 1 == [3, 6, 4, 6, 3, 6, 4, 6][c]
    ensures r == 2 || r == 6 ==> l.PassOf(c, r) + 1 == [5, 6, 5, 6, 5, 6, 5, 6][c]
  {
  }

  /** A pass has the columns and rows that lie in the image, in their order, and as many bytes as its
      filter bytes and its pixels take; an empty pass has none. */
  lemma PassShape(l: Layout, p: nat, k: nat)
    requires p < l.Passes()
    ensures k < l.PassWidth(p) <==> l.AtX(p, k) < l.width
    ensures k < l.PassHeight(p) <==> l.AtY(p, k) < l.height
    ensures l.AtX(p, k) < l.AtX(p, k + 1) && l.AtY(p, k) < l.AtY(p, k + 1)
    ensures 8 * (l.Stride(p) - 1) < l.PassWidth(p) * l.bits <= 8 * l.Stride(p)
    ensures 8 * (l.PixelBytes() - 1) < l.bits <= 8 * l.PixelBytes()
    ensures l.PassBytes(p) == if l.PassWidth(p) == 0 then 0 else l.PassHeight(p) * (l.Stride(p) + 1)
    ensures l.Offset(0) == 0 && l.Offset(p + 1) == l.Offset(p) + l.PassBytes(p)
  {
    TotalIsProduct(l.PassHeight(p), l.Stride(p) + 1);
    hide Total;
    if l.interlaced {
      PassAxes(p);
      AxisBound(StartX(p), StepX(p), l.width, k);
      AxisBound(StartY(p), StepY(p), l.height, k);
      Forward(StartX(p), StepX(p), k);
      Forward(StartY(p), StepY(p), k);
    }
  }

  lemma Forward(start: nat, step: nat, k: nat)
    requires Axis(start, step)
    ensures start + k * step < start + (k + 1) * step
  {
  }

  /** Every pixel lies in its pass, at a column and row the pass has. */
  lemma PixelIsInItsPass(l: Layout, ix: nat, iy: nat)
    requires ix < l.width && iy < l.height
    ensures var p := l.PassOf(ix, iy);
      && l.ColumnOf(p, ix) < l.PassWidth(p) && l.RowOf(p, iy) < l.PassHeight(p)
      && l.AtX(p, l.ColumnOf(p, ix)) == ix && l.AtY(p, l.RowOf(p, iy)) == iy
  {
    if l.interlaced {
      hide Layout.PassOf, StartX, StartY, StepX, StepY;
      var p := l.PassOf(ix, iy);
      PassAxes(p);
      OnAxes(p, l, ix, iy);
      AxisOf(StartX(p), StepX(p), ix);
      AxisOf(StartY(p), StepY(p), iy);
      AxisBound(StartX(p), StepX(p), l.width, ix / StepX(p));
      AxisBound(StartY(p), StepY(p), l.height, iy / StepY(p));
    }
  }

  /** Whatever a pass writes lies in the image and belongs to that pass and place alone, so no
      pixel is written twice. */
  lemma PassWritesItsOwn(l: Layout, p: nat, x: nat, y: nat)
    requires p < l.Passes() && x < l.PassWidth(p) && y < l.PassHeight(p)
    ensures l.AtX(p, x) < l.width && l.AtY(p, y) < l.height
    ensures l.PassOf(l.AtX(p, x), l.AtY(p, y)) == p
    ensures l.ColumnOf(p, l.AtX(p, x)) == x && l.RowOf(p, l.AtY(p, y)) == y
  {
    if l.interlaced {
      hide Layout.PassOf, StartX, StartY, StepX, StepY;
      PassAxes(p);
      AxisBound(StartX(p), StepX(p), l.width, x);
      AxisBound(StartY(p), StepY(p), l.height, y);
      AxisPlace(StartX(p), StepX(p), x);
      AxisPlace(StartY(p), StepY(p), y);
      OnAxes(p, l, l.AtX(p, x), l.AtY(p, y));
    } else {
      assert l.PassOf(x, y) == 0;
    }
  }

  // ----- writing the passes into the image

  /** The pixel at (`ix`, `iy`) according to the scanlines of its pass. */
  ghost function FromRows<T>(l: Layout, p: nat, rows: seq<seq<Byte>>, pixel: (seq<Byte>, nat) -> T, ix: nat, iy: nat): T
    requires l.RowOf(p, iy) < |rows|
  {
    pixel(rows[l.RowOf(p, iy)], l.ColumnOf(p, ix))
  }

  /** One scanline of a pass. */
  method PlaceLine<T>(l: Layout, p: nat, y: nat, line: seq<Byte>, pixel: (seq<Byte>, nat) -> T, image: array2<T>)
    requires p < l.Passes() && y < l.PassHeight(p) && image.Length0 == l.height && image.Length1 == l.width
    modifies image
    ensures forall ix: nat, iy: nat :: ix < l.width && iy < l.height ==>
      image[iy, ix] == if l.PassOf(ix, iy) == p && l.RowOf(p, iy) == y then pixel(line, l.ColumnOf(p, ix)) else old(image[iy, ix])
  {
    hide Layout.PassWidth, Layout.PassHeight, Layout.AtX, Layout.AtY, Layout.PassOf, Layout.ColumnOf, Layout.RowOf;
    for x := 0 to l.PassWidth(p)
      invariant forall ix: nat, iy: nat :: ix < l.width && iy < l.height ==>
        image[iy, ix] == if l.PassOf(ix, iy) == p && l.RowOf(p, iy) == y && l.ColumnOf(p, ix) < x
                         then pixel(line, l.ColumnOf(p, ix)) else old(image[iy, ix])
    {
      PassWritesItsOwn(l, p, x, y);
      forall ix: nat, iy: nat | ix < l.width && iy < l.height && l.PassOf(ix, iy) == p && l.RowOf(p, iy) == y && l.ColumnOf(p, ix) == x
        ensures ix == l.AtX(p, x) && iy == l.AtY(p, y)
      {
        PixelIsInItsPass(l, ix, iy);
      }
      image[l.AtY(p, y), l.AtX(p, x)] := pixel(line, x);
    }
    forall ix: nat, iy: nat | ix < l.width && iy < l.height && l.PassOf(ix, iy) == p
      ensures l.ColumnOf(p, ix) < l.PassWidth(p)
    {
      PixelIsInItsPass(l, ix, iy);
    }
  }

  /** The scanlines of a pass, restored from its place in the raw data; an empty pass has none. */
  ghost function PassRows(l: Layout, raw: seq<Byte>, p: nat): (r: Option<seq<seq<Byte>>>)
    requires 0 < l.bits && l.Offset(p) + l.PassBytes(p) <= |raw|
    ensures r.Some? && l.PassBytes(p) > 0 ==> |r.value| == l.PassHeight(p)
  {
    if l.PassWidth(p) == 0 || l.PassHeight(p) == 0 then Some([])
    else Unfiltered(raw[l.Offset(p)..], Zeros(l.Stride(p)), l.PassHeight(p), l.PixelBytes())
  }

  ghost predicate InPass(l: Layout, p: nat, ix: nat, iy: nat) { ix < l.width && iy < l.height && l.PassOf(ix, iy) == p }

  lemma InPassHasRow(l: Layout, p: nat, ix: nat, iy: nat)
    requires InPass(l, p, ix, iy)
    ensures p < l.Passes() && l.RowOf(p, iy) < l.PassHeight(p) && 0 < l.PassWidth(p)
  {
    PixelIsInItsPass(l, ix, iy);
  }

  ghost predicate Sized<T>(l: Layout, image: array2<T>) { image.Length0 == l.height && image.Length1 == l.width }

  /** What one pass leaves in the image. */
  ghost predicate Placed<T>(l: Layout, p: nat, rows: seq<seq<Byte>>, pixel: (seq<Byte>, nat) -> T, image: array2<T>)
    requires Sized(l, image)
    reads image
  {
    forall ix: nat, iy: nat :: InPass(l, p, ix, iy) ==>
      l.RowOf(p, iy) < |rows| && image[iy, ix] == FromRows(l, p, rows, pixel, ix, iy)
  }

  lemma PassesFit(l: Layout, p: nat, q: nat)
    requires p <= q
    ensures l.Offset(p) <= l.Offset(q)
    ensures p < q ==> l.Offset(p) + l.PassBytes(p) <= l.Offset(q)
    decreases q - p
  {
    if p < q {
      PassesFit(l, p + 1, q);
    }
  }

  /** One pass: its scanlines restored in place and put into the image. */
  method PlacePass<T>(l: Layout, p: nat, raw: array<Byte>, offset: nat, pixel: (seq<Byte>, nat) -> T, image: array2<T>)
    returns (ok: bool)
    requires 0 < l.bits && p < l.Passes() && 0 < l.PassBytes(p) && offset + l.PassBytes(p) <= raw.Length && Sized(l, image)
    requires l.PassWidth(p) > 0 && l.PassHeight(p) > 0
    modifies raw, image
    ensures forall i :: offset + l.PassBytes(p) <= i < raw.Length ==> raw[i] == old(raw[i])
    ensures match Unfiltered(old(raw[offset..]), Zeros(l.Stride(p)), l.PassHeight(p), l.PixelBytes())
      case Some(rows) => ok && Placed(l, p, rows, pixel, image)
      case None => !ok
    ensures forall ix: nat, iy: nat :: ix < l.width && iy < l.height && l.PassOf(ix, iy) != p ==>
      image[iy, ix] == old(image[iy, ix])
  {
    hide Layout.PassWidth, Layout.PassHeight, Layout.PassOf, Layout.ColumnOf, Layout.RowOf, Layout.Stride, Unfiltered, Total, Zeros;
    var stride, height := l.Stride(p), l.PassHeight(p);
    ghost var outcome := Unfiltered(raw[offset..], Zeros(stride), height, l.PixelBytes());
    ok := Unfilter(raw, offset, height, stride, l.PixelBytes());
    if !ok {
      return;
    }
    ghost var rows := outcome.value;
    ghost var restored := raw[..];
    var line := offset;
    TotalNone(stride + 1);
    for y := 0 to height
      invariant line == offset + Total(y, stride + 1)
      invariant raw[..] == restored && Standing(restored, offset, rows, stride)
      invariant forall ix: nat, iy: nat :: ix < l.width && iy < l.height ==>
        image[iy, ix] == if l.PassOf(ix, iy) == p && l.RowOf(p, iy) < y then FromRows(l, p, rows, pixel, ix, iy)
                         else old(image[iy, ix])
    {
      TotalStep(y, stride + 1);
      assert RowAt(raw[..], offset + Total(y, stride + 1), rows[y]);
      PlaceLine(l, p, y, raw[line + 1..line + 1 + stride], pixel, image);
      line := line + stride + 1;
    }
    forall ix: nat, iy: nat | InPass(l, p, ix, iy) ensures l.RowOf(p, iy) < height {
      InPassHasRow(l, p, ix, iy);
    }
  }

  /** Both loops of the decoder go over the passes the same way, so the size the first one adds
      up is where the second one ends. */
  method RawLength(l: Layout) returns (n: nat)
    ensures n == l.Offset(l.Passes())
  {
    n := 0;
    for p := 0 to l.Passes()
      invariant n == l.Offset(p)
    {
      var width, height := l.PassWidth(p), l.PassHeight(p);
      if width > 0 && height > 0 {
        TotalIsProduct(height, (width * l.bits + 7) / 8 + 1);
        n := n + height * ((width * l.bits + 7) / 8 + 1);
      }
    }
  }

  ghost predicate AllPasses(l: Layout, raw: seq<Byte>, n: nat)
    requires 0 < l.bits && n <= l.Passes() && l.Offset(l.Passes()) <= |raw|
  {
    forall p: nat :: p < n ==> (PassesFit(l, p, l.Passes()); PassRows(l, raw, p).Some?)
  }

  /** Every pass before `n` is in the image. */
  ghost predicate PlacedBefore<T>(l: Layout, raw: seq<Byte>, n: nat, pixel: (seq<Byte>, nat) -> T, image: array2<T>)
    requires 0 < l.bits && n <= l.Passes() && l.Offset(l.Passes()) <= |raw| && AllPasses(l, raw, n) && Sized(l, image)
    reads image
  {
    forall p: nat :: p < n ==> (PassesFit(l, p, l.Passes()); Placed(l, p, PassRows(l, raw, p).value, pixel, image))
  }

  /** The pixel at (`ix`, `iy`) of a decoded image: it comes from the one pass it belongs to. */
  ghost function Shown<T>(l: Layout, raw: seq<Byte>, pixel: (seq<Byte>, nat) -> T, ix: nat, iy: nat): (t: T)
    requires 0 < l.bits && |raw| == l.Offset(l.Passes()) && AllPasses(l, raw, l.Passes()) && ix < l.width && iy < l.height
  {
    var p := l.PassOf(ix, iy);
    PassesFit(l, p, l.Passes());
    InPassHasRow(l, p, ix, iy);
    FromRows(l, p, PassRows(l, raw, p).value, pixel, ix, iy)
  }

  /** The decoder's second loop over the passes: fails exactly when some pass has an unknown
      filter. */
  method PlacePasses<T>(l: Layout, raw: array<Byte>, pixel: (seq<Byte>, nat) -> T, blank: T) returns (ok: bool, image: array2<T>)
    requires 0 < l.bits && raw.Length == l.Offset(l.Passes())
    modifies raw
    ensures fresh(image) && Sized(l, image)
    ensures ok <==> AllPasses(l, old(raw[..]), l.Passes())
    ensures ok ==> forall ix: nat, iy: nat :: ix < l.width && iy < l.height ==> image[iy, ix] == Shown(l, old(raw[..]), pixel, ix, iy)
  {
    hide Layout.PassWidth, Layout.PassHeight, Layout.PassOf, Layout.ColumnOf, Layout.RowOf, Layout.Stride, Unfiltered, Total, Zeros;
    image := new T[l.height, l.width]((_, _) => blank);
    ghost var was := raw[..];
    var offset := 0;
    for p := 0 to l.Passes()
      invariant offset == l.Offset(p) && offset <= raw.Length
      invariant forall i :: offset <= i < raw.Length ==> raw[i] == was[i]
      invariant AllPasses(l, was, p) && PlacedBefore(l, was, p, pixel, image)
    {
      PassesFit(l, p, l.Passes());
      assert raw[offset..] == was[offset..];
      ghost var outcome := PassRows(l, was, p);
      if l.PassWidth(p) > 0 && l.PassHeight(p) > 0 {
        PassHasBytes(l, p);
        ok := PlacePass(l, p, raw, offset, pixel, image);
        if !ok {
          assert PassRows(l, was, p).None?;
          return;
        }
      } else {
        EmptyPass(l, p, outcome.value, pixel, image);
      }
      assert Placed(l, p, outcome.value, pixel, image);
      offset := offset + l.PassBytes(p);
    }
    PlacedIsShown(l, was, pixel, image);
    ok := true;
  }

  lemma PlacedIsShown<T>(l: Layout, raw: seq<Byte>, pixel: (seq<Byte>, nat) -> T, image: array2<T>)
    requires 0 < l.bits && |raw| == l.Offset(l.Passes()) && AllPasses(l, raw, l.Passes()) && Sized(l, image)
    requires PlacedBefore(l, raw, l.Passes(), pixel, image)
    ensures forall ix: nat, iy: nat :: ix < l.width && iy < l.height ==> image[iy, ix] == Shown(l, raw, pixel, ix, iy)
  {
    hide Layout.PassWidth, Layout.PassHeight, Layout.PassOf, Layout.RowOf, Layout.ColumnOf, PassRows, FromRows;
    forall ix: nat, iy: nat | ix < l.width && iy < l.height ensures image[iy, ix] == Shown(l, raw, pixel, ix, iy) {
      var p := l.PassOf(ix, iy);
      PassesFit(l, p, l.Passes());
      assert Placed(l, p, PassRows(l, raw, p).value, pixel, image) && InPass(l, p, ix, iy);
    }
  }

  lemma EmptyPass<T>(l: Layout, p: nat, rows: seq<seq<Byte>>, pixel: (seq<Byte>, nat) -> T, image: array2<T>)
    requires Sized(l, image) && (l.PassWidth(p) == 0 || l.PassHeight(p) == 0)
    ensures Placed(l, p, rows, pixel, image)
  {
    hide Layout.PassWidth, Layout.PassHeight, Layout.PassOf, Layout.RowOf;
    forall ix: nat, iy: nat | InPass(l, p, ix, iy) ensures false {
      InPassHasRow(l, p, ix, iy);
    }
  }

  lemma PassHasBytes(l: Layout, p: nat)
    requires l.PassWidth(p) > 0 && l.PassHeight(p) > 0
    ensures l.PassBytes(p) > 0
  {
    TotalStep(l.PassHeight(p) - 1, l.Stride(p) + 1);
  }

  // ----- an encoder of such images

  /** The pixels of line `y` of a pass over an image. */
  ghost function LineOf<T>(l: Layout, p: nat, y: nat, original: (nat, nat) -> T): (line: seq<T>)
    ensures |line| == l.PassWidth(p)
  {
    seq(l.PassWidth(p), x requires 0 <= x < l.PassWidth(p) => original(l.AtX(p, x), l.AtY(p, y)))
  }

  /** The scanlines of one pass over an image: `pack` turns the pixels of a line into bytes. */
  ghost function LinesOf<T>(l: Layout, p: nat, original: (nat, nat) -> T, pack: seq<T> -> seq<Byte>): (lines: seq<seq<Byte>>)
    ensures |lines| == l.PassHeight(p)
  {
    seq(l.PassHeight(p), y requires 0 <= y < l.PassHeight(p) => pack(LineOf(l, p, y, original)))
  }

  ghost predicate AllFit<T>(row: seq<T>, fits: T -> bool) { forall x :: 0 <= x < |row| ==> fits(row[x]) }

  ghost predicate ImageFits<T>(l: Layout, original: (nat, nat) -> T, fits: T -> bool)
  {
    forall ix: nat, iy: nat :: ix < l.width && iy < l.height ==> fits(original(ix, iy))
  }

  lemma LineFits<T>(l: Layout, p: nat, y: nat, original: (nat, nat) -> T, fits: T -> bool)
    requires ImageFits(l, original, fits) && p < l.Passes() && y < l.PassHeight(p)
    ensures AllFit(LineOf(l, p, y, original), fits)
  {
    hide Layout.PassWidth, Layout.PassHeight, Layout.AtX, Layout.AtY;
    forall x | 0 <= x < l.PassWidth(p)
      ensures fits(LineOf(l, p, y, original)[x])
    {
      PassWritesItsOwn(l, p, x, y);
    }
  }

  /** `pixel` reads back what `pack` writes of pixels that fit, in lines of the right number of bytes. */
  ghost predicate Packs<T(!new)>(l: Layout, pack: seq<T> -> seq<Byte>, pixel: (seq<Byte>, nat) -> T, fits: T -> bool)
  {
    forall row: seq<T> :: AllFit(row, fits) ==>
      && |pack(row)| == (|row| * l.bits + 7) / 8
      && forall x: nat :: x < |row| ==> pixel(pack(row), x) == row[x]
  }

  ghost predicate Filters(l: Layout, filters: seq<seq<Byte>>)
  {
    && |filters| == l.Passes()
    && forall p: nat :: p < |filters| ==>
         |filters[p]| == l.PassHeight(p) && forall y :: 0 <= y < |filters[p]| ==> filters[p][y] <= 4
  }

  lemma LinesAreRows<T(!new)>(l: Layout, p: nat, original: (nat, nat) -> T, pack: seq<T> -> seq<Byte>, pixel: (seq<Byte>, nat) -> T, fits: T -> bool)
    requires Packs(l, pack, pixel, fits) && ImageFits(l, original, fits) && p < l.Passes()
    ensures Rows(LinesOf(l, p, original, pack), l.Stride(p))
  {
    hide Layout.PassWidth, Layout.PassHeight, LineOf;
    var lines := LinesOf(l, p, original, pack);
    forall y | 0 <= y < |lines| ensures |lines[y]| == l.Stride(p) {
      LineFits(l, p, y, original, fits);
      assert lines[y] == pack(LineOf(l, p, y, original));
    }
  }

  /** One encoded pass; an empty one is left out. */
  ghost function Encoded<T(!new)>(l: Layout, p: nat, filters: seq<Byte>, original: (nat, nat) -> T, pack: seq<T> -> seq<Byte>,
                                  pixel: (seq<Byte>, nat) -> T, fits: T -> bool): (raw: seq<Byte>)
    requires 0 < l.bits && Packs(l, pack, pixel, fits) && ImageFits(l, original, fits) && |filters| == l.PassHeight(p) && p < l.Passes()
    ensures |raw| == l.PassBytes(p)
  {
    LinesAreRows(l, p, original, pack, pixel, fits);
    if l.PassWidth(p) == 0 || l.PassHeight(p) == 0 then []
    else Filtered(filters, Zeros(l.Stride(p)), LinesOf(l, p, original, pack), l.PixelBytes())
  }

  /** The encoded image from pass `p` on. */
  ghost function EncodedFrom<T(!new)>(l: Layout, p: nat, filters: seq<seq<Byte>>, original: (nat, nat) -> T, pack: seq<T> -> seq<Byte>,
                                      pixel: (seq<Byte>, nat) -> T, fits: T -> bool): (raw: seq<Byte>)
    requires 0 < l.bits && Packs(l, pack, pixel, fits) && ImageFits(l, original, fits) && Filters(l, filters) && p <= l.Passes()
    ensures l.Offset(p) + |raw| == l.Offset(l.Passes())
    decreases l.Passes() - p
  {
    if p == l.Passes() then []
    else Encoded(l, p, filters[p], original, pack, pixel, fits) + EncodedFrom(l, p + 1, filters, original, pack, pixel, fits)
  }

  lemma {:induction false} EncodedAt<T(!new)>(
    l: Layout, p: nat, filters: seq<seq<Byte>>, original: (nat, nat) -> T, pack: seq<T> -> seq<Byte>, pixel: (seq<Byte>, nat) -> T, fits: T -> bool)
    requires 0 < l.bits && Packs(l, pack, pixel, fits) && ImageFits(l, original, fits) && Filters(l, filters) && p <= l.Passes()
    ensures l.Offset(p) <= l.Offset(l.Passes())
    ensures EncodedFrom(l, 0, filters, original, pack, pixel, fits)[l.Offset(p)..] == EncodedFrom(l, p, filters, original, pack, pixel, fits)
  {
    hide Layout.PassBytes, Packs, Encoded;
    PassesFit(l, p, l.Passes());
    if p > 0 {
      PassesFit(l, p - 1, l.Passes());
      EncodedAt(l, p - 1, filters, original, pack, pixel, fits);
      var pass, more := Encoded(l, p - 1, filters[p - 1], original, pack, pixel, fits), EncodedFrom(l, p, filters, original, pack, pixel, fits);
      assert EncodedFrom(l, p - 1, filters, original, pack, pixel, fits) == pass + more;
      assert EncodedFrom(l, 0, filters, original, pack, pixel, fits)[l.Offset(p - 1)..][|pass|..] == more;
    }
  }

  lemma PassRoundTrip<T(!new)>(
    l: Layout, p: nat, filters: seq<seq<Byte>>, original: (nat, nat) -> T, pack: seq<T> -> seq<Byte>, pixel: (seq<Byte>, nat) -> T, fits: T -> bool)
    requires 0 < l.bits && Packs(l, pack, pixel, fits) && ImageFits(l, original, fits) && Filters(l, filters) && p < l.Passes()
    ensures l.Offset(p) + l.PassBytes(p) <= l.Offset(l.Passes())
    ensures PassRows(l, EncodedFrom(l, 0, filters, original, pack, pixel, fits), p) ==
            Some(if l.PassWidth(p) == 0 || l.PassHeight(p) == 0 then [] else LinesOf(l, p, original, pack))
  {
    hide Layout.PassWidth, Layout.PassHeight, Layout.AtX, Layout.AtY, Layout.PassBytes, Layout.Stride, Packs, Filtered, Unfiltered, LinesOf;
    PassesFit(l, p, l.Passes());
    EncodedAt(l, p, filters, original, pack, pixel, fits);
    if l.PassWidth(p) != 0 && l.PassHeight(p) != 0 {
      LinesAreRows(l, p, original, pack, pixel, fits);
      UnfilterRoundTrip(filters[p], Zeros(l.Stride(p)), LinesOf(l, p, original, pack), l.PixelBytes(),
                        EncodedFrom(l, p + 1, filters, original, pack, pixel, fits));
    }
  }

  /** Whatever the image, the pixel format, the filters and the interlacing, decoding gives back
      every pixel of an encoded image. */
  lemma ImageRoundTrip<T(!new)>(
    l: Layout, filters: seq<seq<Byte>>, original: (nat, nat) -> T, pack: seq<T> -> seq<Byte>, pixel: (seq<Byte>, nat) -> T, fits: T -> bool)
    requires 0 < l.bits && Packs(l, pack, pixel, fits) && ImageFits(l, original, fits) && Filters(l, filters)
    ensures var raw := EncodedFrom(l, 0, filters, original, pack, pixel, fits);
      && |raw| == l.Offset(l.Passes()) && AllPasses(l, raw, l.Passes())
      && forall ix: nat, iy: nat :: ix < l.width && iy < l.height ==> Shown(l, raw, pixel, ix, iy) == original(ix, iy)
  {
    hide Layout.PassWidth, Layout.PassHeight, Layout.AtX, Layout.AtY, Layout.PassOf, Layout.RowOf, Layout.ColumnOf, Layout.PassBytes,
      Layout.Stride, PassRows, EncodedFrom, FromRows, LinesOf;
    var raw := EncodedFrom(l, 0, filters, original, pack, pixel, fits);
    assert |raw| == l.Offset(l.Passes());
    forall p: nat | p < l.Passes()
      ensures l.Offset(p) + l.PassBytes(p) <= |raw| && PassRows(l, raw, p).Some?
    {
      PassRoundTrip(l, p, filters, original, pack, pixel, fits);
    }
    assert AllPasses(l, raw, l.Passes());
    forall ix: nat, iy: nat | ix < l.width && iy < l.height
      ensures Shown(l, raw, pixel, ix, iy) == original(ix, iy)
    {
      PassRoundTrip(l, l.PassOf(ix, iy), filters, original, pack, pixel, fits);
      InPassHasRow(l, l.PassOf(ix, iy), ix, iy);
      LineShowsPixel(l, original, pack, pixel, fits, ix, iy);
    }
  }

  lemma LineShowsPixel<T(!new)>(
    l: Layout, original: (nat, nat) -> T, pack: seq<T> -> seq<Byte>, pixel: (seq<Byte>, nat) -> T, fits: T -> bool,
    ix: nat, iy: nat)
    requires Packs(l, pack, pixel, fits) && ImageFits(l, original, fits) && ix < l.width && iy < l.height
    ensures var p := l.PassOf(ix, iy);
      && l.RowOf(p, iy) < l.PassHeight(p)
      && FromRows(l, p, LinesOf(l, p, original, pack), pixel, ix, iy) == original(ix, iy)
  {
    hide Layout.PassWidth, Layout.PassHeight, Layout.AtX, Layout.AtY, Layout.PassOf, Layout.RowOf, Layout.ColumnOf;
    PixelIsInItsPass(l, ix, iy);
    var p := l.PassOf(ix, iy);
    LineFits(l, p, l.RowOf(p, iy), original, fits);
    var row := LineOf(l, p, l.RowOf(p, iy), original);
    assert row[l.ColumnOf(p, ix)] == original(ix, iy);
  }
}
