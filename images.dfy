/** Building the delivered image from the decoded samples: the colour-type
    dispatch and the greyscale copy. A grey image is a height-by-width grid
    of 8-bit samples, indexed [y, x], zero when created. */
module Images {
  import opened Wrappers
  import opened Bytes
  import opened Errors
  import opened Chunks

  /** The sample the as-written copy leaves at column x, row y: it writes
      the byte at offset r*width + c to column r and row c, so the grid is
      transposed, and writes falling outside the width-by-height grid are
      dropped. */
  function AsWrittenCell(pixels: seq<byte>, width: nat, height: nat, x: nat, y: nat): (v: byte)
    ensures x < height && y < width && x * width + y < |pixels| ==> v == pixels[x * width + y]
    ensures !(x < height && y < width && x * width + y < |pixels|) ==> v == 0
  {
    if x < height && y < width && x * width + y < |pixels| then pixels[x * width + y] else 0
  }

  /** The sample at column x, row y of a grid filled row by row from the
      buffer, left to right and top to bottom; zero past the end. */
  function RowMajorCell(pixels: seq<byte>, width: nat, x: nat, y: nat): (v: byte)
    ensures y * width + x < |pixels| ==> v == pixels[y * width + x]
    ensures y * width + x >= |pixels| ==> v == 0
  {
    if y * width + x < |pixels| then pixels[y * width + x] else 0
  }

  /** image.Gray's SetGray: a write at column x, row y, dropped when the
      point lies outside the grid. No other cell changes. */
  method SetGray(img: array2<byte>, x: int, y: int, v: byte)
    modifies img
    ensures 0 <= y < img.Length0 && 0 <= x < img.Length1 ==> img[y, x] == v
    ensures forall i, j :: 0 <= i < img.Length0 && 0 <= j < img.Length1 && !(i == y && j == x) ==>
              img[i, j] == old(img[i, j])
  {
    if 0 <= y < img.Length0 && 0 <= x < img.Length1 {
      img[y, x] := v;
    }
  }

  /** The greyscale copy as the source writes it: the loop over rows r and
      columns c reads offset r*width + c, stops the row at the end of the
      buffer, and writes with the coordinates swapped. */
  method HandleGreyscaleAsWritten(pixels: seq<byte>, width: nat, height: nat) returns (img: array2<byte>)
    ensures fresh(img) && img.Length0 == height && img.Length1 == width
    ensures forall y, x :: 0 <= y < height && 0 <= x < width ==> img[y, x] == AsWrittenCell(pixels, width, height, x, y)
  {
    img := new byte[height, width]((_, _) => 0);
    var scanline := width;
    var r := 0;
    while r < height
      invariant 0 <= r <= height
      invariant forall y, x :: 0 <= y < height && 0 <= x < width ==>
        img[y, x] == if x < r then AsWrittenCell(pixels, width, height, x, y) else 0
    {
      var c := 0;
      while c < width
        invariant 0 <= c <= width
        invariant forall y, x :: 0 <= y < height && 0 <= x < width ==>
          img[y, x] == if x < r || (x == r && y < c) then AsWrittenCell(pixels, width, height, x, y) else 0
      {
        var offset := r * scanline + c;
        if offset >= |pixels| {
          break;
        }
        var greyValue := pixels[offset];
        SetGray(img, r, c, greyValue);
        c := c + 1;
      }
      r := r + 1;
    }
  }

  /** The greyscale copy with the write at column c, row r: the grid holds
      the buffer in row-major order. */
  method HandleGreyscale(pixels: seq<byte>, width: nat, height: nat) returns (img: array2<byte>)
    ensures fresh(img) && img.Length0 == height && img.Length1 == width
    ensures forall y, x :: 0 <= y < height && 0 <= x < width ==> img[y, x] == RowMajorCell(pixels, width, x, y)
  {
    img := new byte[height, width]((_, _) => 0);
    var scanline := width;
    var r := 0;
    while r < height
      invariant 0 <= r <= height
      invariant forall y, x :: 0 <= y < height && 0 <= x < width ==>
        img[y, x] == if y < r then RowMajorCell(pixels, width, x, y) else 0
    {
      var c := 0;
      while c < width
        invariant 0 <= c <= width
        invariant forall y, x :: 0 <= y < height && 0 <= x < width ==>
          img[y, x] == if y < r || (y == r && x < c) then RowMajorCell(pixels, width, x, y) else 0
      {
        var offset := r * scanline + c;
        if offset >= |pixels| {
          break;
        }
        var greyValue := pixels[offset];
        SetGray(img, c, r, greyValue);
        c := c + 1;
      }
      r := r + 1;
    }
  }

  /** Which colour types yield an image: Success(true) for greyscale,
      Success(false) for the four types the decoder recognises but does not
      build, an error for every other value. */
  function ColorTypeKind(colorType: byte): (r: Result<bool, Error>)
    ensures r.Failure? <==> colorType !in {0, 2, 3, 4, 6}
    ensures r.Failure? ==> r.error == InvalidColorType(colorType)
    ensures r == Success(true) <==> colorType == 0
  {
    match colorType
    case 0 => Success(true)
    case 2 => Success(false)
    case 3 => Success(false)
    case 4 => Success(false)
    case 6 => Success(false)
    case _ => Failure(InvalidColorType(colorType))
  }

  /** Dispatch on the header's colour type. Only greyscale builds a grid,
      height rows of width samples taken row by row from `pixels`. */
  method CreateImage(pixels: seq<byte>, ihdr: IHDR) returns (img: array2?<byte>, err: Option<Error>)
    ensures ColorTypeKind(ihdr.colorType).Failure? ==> img == null && err == Some(ColorTypeKind(ihdr.colorType).error)
    ensures ColorTypeKind(ihdr.colorType) == Success(false) ==> img == null && err == None
    ensures ColorTypeKind(ihdr.colorType) == Success(true) ==>
      err == None && img != null && fresh(img) && IsGreyImage(img, pixels, ihdr)
  {
    var width := ihdr.width as int;
    var height := ihdr.height as int;
    match ihdr.colorType
    case 0 =>
      img := HandleGreyscale(pixels, width, height);
      err := None;
    case 2 =>
      img, err := null, None;
    case 3 =>
      img, err := null, None;
    case 4 =>
      img, err := null, None;
    case 6 =>
      img, err := null, None;
    case _ =>
      img, err := null, Some(InvalidColorType(ihdr.colorType));
  }

  /** CreateImage as the source writes it: the same dispatch, with the
      greyscale copy that swaps the coordinates. */
  method CreateImageAsWritten(pixels: seq<byte>, ihdr: IHDR) returns (img: array2?<byte>, err: Option<Error>)
    ensures ColorTypeKind(ihdr.colorType).Failure? ==> img == null && err == Some(ColorTypeKind(ihdr.colorType).error)
    ensures ColorTypeKind(ihdr.colorType) == Success(false) ==> img == null && err == None
    ensures ColorTypeKind(ihdr.colorType) == Success(true) ==>
      err == None && img != null && fresh(img)
      && img.Length0 == ihdr.height as int && img.Length1 == ihdr.width as int
      && forall y, x :: 0 <= y < img.Length0 && 0 <= x < img.Length1 ==>
           img[y, x] == AsWrittenCell(pixels, ihdr.width as int, ihdr.height as int, x, y)
  {
    var width := ihdr.width as int;
    var height := ihdr.height as int;
    match ihdr.colorType
    case 0 =>
      img := HandleGreyscaleAsWritten(pixels, width, height);
      err := None;
    case 2 =>
      img, err := null, None;
    case 3 =>
      img, err := null, None;
    case 4 =>
      img, err := null, None;
    case 6 =>
      img, err := null, None;
    case _ =>
      img, err := null, Some(InvalidColorType(ihdr.colorType));
  }

  /** `img` is the header's width-by-height grid filled row by row. */
  ghost predicate IsGreyImage(img: array2<byte>, pixels: seq<byte>, ihdr: IHDR)
    reads img
  {
    img.Length0 == ihdr.height as int && img.Length1 == ihdr.width as int
    && forall y, x :: 0 <= y < img.Length0 && 0 <= x < img.Length1 ==>
         img[y, x] == RowMajorCell(pixels, img.Length1, x, y)
  }

  // Properties of the two copies.

  /** Reading the row-major grid back in row-major order gives the buffer:
      the cell at offset i holds pixels[i] whenever i is inside both. */
  lemma RowMajorReadsBack(pixels: seq<byte>, width: nat, height: nat, i: nat)
    requires width > 0 && i < width * height && i < |pixels|
    ensures i / width < height
    ensures RowMajorCell(pixels, width, i % width, i / width) == pixels[i]
  {
    var x, y := i % width, i / width;
    assert y * width + x == i;
    if y >= height {
      MulMonotone(height, y, width);
    }
  }

  lemma MulMonotone(a: nat, b: nat, w: nat)
    requires a <= b
    ensures a * w <= b * w
  {
  }

  /** No sample comes from past the end of the buffer: there the row-major
      grid holds zero. Every cell of the grid is filled from the buffer once
      the buffer holds width*height samples. */
  lemma RowMajorFull(pixels: seq<byte>, width: nat, height: nat, x: nat, y: nat)
    requires x < width && y < height && |pixels| >= width * height
    ensures y * width + x < |pixels|
    ensures RowMajorCell(pixels, width, x, y) == pixels[y * width + x]
  {
    MulMonotone(y + 1, height, width);
  }

  /** On a square grid the as-written copy is exactly the transpose of the
      row-major one. */
  lemma AsWrittenIsTranspose(pixels: seq<byte>, n: nat, x: nat, y: nat)
    requires x < n && y < n
    ensures AsWrittenCell(pixels, n, n, x, y) == RowMajorCell(pixels, n, y, x)
  {
  }

  /** The input that shows the swap: two samples on one row of width two.
      The as-written copy drops the second sample, and the row-major copy
      keeps it. */
  lemma AsWrittenDropsSample()
    ensures AsWrittenCell([1, 2], 2, 1, 1, 0) == 0
    ensures RowMajorCell([1, 2], 2, 1, 0) == 2
  {
  }
}
