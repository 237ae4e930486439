/** The foreign primitives the authentication layer calls but does not
    define. They are passed in as function values, so the model commits to
    nothing about them beyond being functions. */
module External {

  newtype byte = b: int | 0 <= b < 256

  /** `md5`: the raw digest of `MessageDigest::create("md5")` over the bytes
      of a string; `toHex`: `util::toHex`, lowercase hex rendering;
      `base64`: `base64::encode`. */
  datatype Primitives = Primitives(
    md5: string -> seq<byte>,
    toHex: seq<byte> -> string,
    base64: string -> string)
}
