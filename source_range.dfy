/** Source positions shared by the IR and the diagnostics. */
module SourceRanges {

  /** A region of a source file, from offset `start` up to `end`. */
  datatype SourceRange = SourceRange(file: string, start: nat, end: nat)

}
