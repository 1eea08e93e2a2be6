/** The browser's URL parser (the WHATWG URL Standard), which this model does not implement.
    Code that parses a URL receives a `Parser` and treats it as an uninterpreted function. */
module Url {
  import opened Wrappers

  /** The parts of a parsed URL that the extension reads. */
  datatype Record = Record(protocol: string, host: string, href: string)

  /** `parse(s)` stands for `new URL(s)` and `resolve(s, base)` for `new URL(s, base)`;
      `None` stands for the `TypeError` the constructor throws on input it cannot parse. */
  datatype Parser = Parser(parse: string -> Option<Record>, resolve: (string, string) -> Option<Record>)
}
