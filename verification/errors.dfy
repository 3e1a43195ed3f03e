/** The request side's error type, shared by the header and request parsers. */
module Errors {

  /**
    `InvalidFormat` carries the reason text; `IOError` stands for a failed
    transport read, which the chunk-list reader of this model never produces.
   */
  datatype ParseError = InvalidFormat(reason: string) | IOError
}
