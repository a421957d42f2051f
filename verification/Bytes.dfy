/** Bytes, as the codecs and the buffers see them. */
module Bytes {
  type byte = x: int | 0 <= x < 256
}
/** What a call of a stream comes to (talk/base/stream.h). */
module Streams {
  datatype StreamResult = Success | Block | Eos | Error
}
