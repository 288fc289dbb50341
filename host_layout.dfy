/** The host framework's visual-format parser is not part of this model: the
    model stops at the arguments each front end hands to it. */
module HostLayout {
  import opened Symbols

  /** The host's layout format options, as the set of their set bits; both
      front ends pass them through untouched. */
  type FormatOptions = set<nat>

  /** One call of the host parser: visual format, options, metrics, views. */
  datatype ParserCall = ParserCall(
    visualFormat: string,
    options: FormatOptions,
    metrics: map<string, Number>,
    views: map<string, View>)
}
