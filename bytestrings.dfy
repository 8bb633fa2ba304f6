/** Strings whose every character fits in one byte, the input both codecs are written for. */
module ByteStrings {

  /** Every character code is below 256. */
  predicate IsByteString(s: string)
  {
    forall i | 0 <= i < |s| :: s[i] as int < 256
  }
}
