/** The keys of the pipeline configuration that cleaning and validation read.
    The configuration document is loaded elsewhere; here it is a typed value. */
module Configuration {

  /** One entry of `reasonable_ranges`: inclusive bounds for a column. */
  datatype Range = Range(column: string, min: real, max: real)

  datatype Config = Config(
    missingValueStrategy: string,
    numericalColumnNames: seq<string>,
    categoricalColumnNames: seq<string>,
    targetColumnName: string,
    reasonableRanges: seq<Range>,
    minimumRows: int)
}
