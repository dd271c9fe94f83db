/** Bytes and the two decoders the source calls: `base64.b64decode` and
    `bytes.decode("utf-8")`. Both raise on bad input; here each is a partial
    function returning `None` where the source raises. */
module Codec {
  import opened Options

  newtype byte = x: int | 0 <= x < 256

  datatype Decoders = Decoders(b64: string -> Option<seq<byte>>, utf8: seq<byte> -> Option<string>)

  /** `base64.b64decode(s).decode("utf-8")`, or `None` where either raises. */
  function DecodeText(d: Decoders, s: string): (r: Option<string>)
    ensures r.Some? <==> d.b64(s).Some? && d.utf8(d.b64(s).value).Some?
  {
    match d.b64(s)
    case None => None
    case Some(bytes) => d.utf8(bytes)
  }
}
