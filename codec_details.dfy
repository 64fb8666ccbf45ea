/** Details of the header codecs that the echo responder relies on but
    whose sources are not part of this model. Every property proved about
    the responder holds for every choice of these. */
module CodecDetails {
  import opened Errors

  datatype Choices = Choices(
    /** `ParseIp4Header` cuts the payload at `totalLength` (otherwise the
        payload is everything after the header). */
    ip4PayloadTrimmed: bool,
    /** `WriteIcmp4Header` writes 0 into the checksum field (otherwise it
        writes the header's own checksum value). */
    icmpChecksumZeroed: bool,
    /** The exception `ParseIcmp4Header` throws for fewer than 8 bytes. */
    icmpTooShortError: Error)
}
