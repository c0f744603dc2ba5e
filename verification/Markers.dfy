/** The markers of the capture stream: `00 FF FF T` followed by a checksummed header. */
module Markers {
  type Byte = b: int | 0 <= b < 256

  datatype Option<+T> = None | Some(value: T)

  const SAV_TYPE: Byte := 0xC0
  const EAV_TYPE: Byte := 0xC1
  const AUDIO_TYPE: Byte := 0x58

  const SAV_BYTES := 8    // marker and header of a SAV
  const EAV_BYTES := 9    // marker and header of an EAV; the longest the scanners look at
  const AUDIO_BYTES := 8  // marker and length of an audio packet

  /** The checksum of the four SAV header bytes at `p`; `%` is the cast to uint8_t. */
  predicate SavHeaderValid(h: seq<Byte>, p: nat)
    requires p + 4 <= |h|
  {
    h[p + 3] == (h[p] as int + h[p + 1] as int + h[p + 2] as int - 0x40) % 256
  }

  /** The checksum of the five EAV header bytes at `p`. */
  predicate EavHeaderValid(h: seq<Byte>, p: nat)
    requires p + 5 <= |h|
  {
    h[p + 4] == (h[p] as int + h[p + 1] as int + h[p + 2] as int + h[p + 3] as int - 0x3F) % 256
  }

  /** `00 FF FF` at `p`. */
  predicate PrefixAt(h: seq<Byte>, p: nat)
  {
    p + 3 <= |h| && h[p] == 0 && h[p + 1] == 0xFF && h[p + 2] == 0xFF
  }

  /** A checksum-valid SAV, completely inside `h`, at `p`. */
  predicate SavAt(h: seq<Byte>, p: nat)
  {
    p + SAV_BYTES <= |h| && PrefixAt(h, p) && h[p + 3] == SAV_TYPE && SavHeaderValid(h, p + 4)
  }

  /** A checksum-valid EAV, completely inside `h`, at `p`. */
  predicate EavAt(h: seq<Byte>, p: nat)
  {
    p + EAV_BYTES <= |h| && PrefixAt(h, p) && h[p + 3] == EAV_TYPE && EavHeaderValid(h, p + 4)
  }
}
