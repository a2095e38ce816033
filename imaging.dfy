/**
 What the controller sees of an image, and the two image-library operations it
 calls on one: a resize to a requested size and a colour-mode conversion.
 Pixel data, decoding and encoding stay inside the library and are not modelled.
 */
module Imaging {
  import opened Wrappers

  /** An image reduced to its size and its colour mode ("RGB", "RGBA", "P", "L", ...). */
  datatype ImageDesc = ImageDesc(width: int, height: int, mode: string)

  /** A decoded image: the library refuses to open a file whose size is not positive. */
  predicate Decodable(img: ImageDesc) {
    img.width > 0 && img.height > 0
  }

  /**
   The library's LANCZOS resize. It yields an image of exactly the requested size in
   the mode of its source, and raises ValueError (`None`) when either dimension is
   below 1.
   */
  function Resample(img: ImageDesc, width: int, height: int): (r: Option<ImageDesc>)
    ensures r.Some? <==> width > 0 && height > 0
    ensures r.Some? ==> Decodable(r.value)
    ensures r.Some? ==> r.value.width == width && r.value.height == height && r.value.mode == img.mode
  {
    if width > 0 && height > 0 then Some(ImageDesc(width, height, img.mode)) else None
  }

  /** The library's colour-mode conversion: same size, new mode. */
  function Convert(img: ImageDesc, mode: string): (r: ImageDesc)
    ensures r.width == img.width && r.height == img.height && r.mode == mode
  {
    img.(mode := mode)
  }
}
