/** The two integer checks the converter applies to the dimensions it is
    given on the command line and to the dimensions of a decoded image. */
module Validator {
  import opened Wrappers

  /** Largest width or height accepted on the command line. */
  const MaxRequested := 100000
  /** Largest width or height accepted for a decoded image. */
  const MaxImageSide := 30000
  /** Largest number of pixels accepted for a decoded image. */
  const MaxImagePixels := 500000000

  /** Why a pair of dimensions was refused, with the values the message
      reports. */
  datatype DimensionError =
    | Negative(width: int, height: int)
    | TooLarge(width: int, height: int)
    | BothZero
    | InvalidImage(width: int, height: int)
    | ImageTooLarge(width: int, height: int)
    | TooManyPixels(width: int, height: int, pixels: int)

  /** Requested output dimensions: neither may be negative or above
      MaxRequested, and they may not both be zero (zero stands for "keep
      the image's own size"). The first check that fails decides the
      error. */
  function ValidateDimensions(width: int, height: int): (r: Option<DimensionError>)
    ensures r.None? <==>
      0 <= width <= MaxRequested && 0 <= height <= MaxRequested && (width, height) != (0, 0)
    ensures r == Some(Negative(width, height)) <==> width < 0 || height < 0
    ensures r == Some(TooLarge(width, height)) <==>
      0 <= width && 0 <= height && (width > MaxRequested || height > MaxRequested)
    ensures r == Some(BothZero) <==> width == 0 && height == 0
  {
    if width < 0 || height < 0 then Some(Negative(width, height))
    else if width > MaxRequested || height > MaxRequested then Some(TooLarge(width, height))
    else if width == 0 && height == 0 then Some(BothZero)
    else None
  }

  /** Dimensions of a decoded image: both positive, neither above
      MaxImageSide, and at most MaxImagePixels pixels in all. The first
      check that fails decides the error. */
  function ValidateImageDimensions(width: int, height: int): (r: Option<DimensionError>)
    ensures r.None? <==>
      0 < width <= MaxImageSide && 0 < height <= MaxImageSide && width * height <= MaxImagePixels
    ensures r == Some(InvalidImage(width, height)) <==> width <= 0 || height <= 0
    ensures r == Some(ImageTooLarge(width, height)) <==>
      0 < width && 0 < height && (width > MaxImageSide || height > MaxImageSide)
    ensures r == Some(TooManyPixels(width, height, width * height)) <==>
      0 < width <= MaxImageSide && 0 < height <= MaxImageSide && width * height > MaxImagePixels
    ensures r.Some? && r.value.TooManyPixels? ==> r.value.pixels <= MaxImageSide * MaxImageSide
  {
    if width <= 0 || height <= 0 then Some(InvalidImage(width, height))
    else if width > MaxImageSide || height > MaxImageSide then Some(ImageTooLarge(width, height))
    else if width * height > MaxImagePixels then Some(TooManyPixels(width, height, width * height))
    else None
  }

  /** A single zero is accepted: it asks for the other side to be derived
      from the image's aspect ratio. */
  lemma SingleZeroAccepted(n: int)
    requires 0 < n <= MaxRequested
    ensures ValidateDimensions(0, n) == None && ValidateDimensions(n, 0) == None
  {
  }

  /** A square image of side 22360 passes, one of side 22361 has too many
      pixels although each side is within the cap. */
  lemma PixelCapExamples()
    ensures ValidateImageDimensions(22360, 22360) == None
    ensures ValidateImageDimensions(22361, 22361) == Some(TooManyPixels(22361, 22361, 500014321))
  {
  }
}
