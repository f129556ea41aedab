/** The formatting policy and the stream flags the formatter consults. */
module Policy {

  /** `unsigned short`, the type of PrPrint::precision. */
  newtype uint16 = x: int | 0 <= x < 0x1_0000

  /** prprint::Rounding. */
  datatype Rounding = Keep | Upward | Downward | ToNearest | TowardZero

  /** prprint::PrPrint: fractional digits, whether to trim zeros, and the rounding mode. */
  datatype PrPrint = PrPrint(precision: uint16, trimZeros: bool, roundMode: Rounding)

  /** The three ios_base::fmtflags bits the trimming printers read. */
  datatype FmtFlags = FmtFlags(showpos: bool, showpoint: bool, uppercase: bool)
}
