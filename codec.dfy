/** The image codec as the conversion sees it. */
module Codec {

  /** The bytes of a file, or of one JPEG encoding. */
  type Bytes = seq<bv8>

  /** A decoded image, already converted to RGB, seen through the only use the quality search
      makes of it: JPEG-encoding it at an integer quality (4:2:0 chroma subsampling, optimize on).
      Encoding is deterministic: the same quality always yields the same bytes. */
  type Encoder = int -> Bytes
}
