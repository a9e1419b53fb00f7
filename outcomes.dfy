/** Optional values, results, and the errors the allocator reports. */
module Outcomes {

  /** A value that may be absent; Go's nil net.IP is `None`. */
  datatype Option<+T> = None | Some(value: T)

  /** Either a value or the error Go returns beside it. */
  datatype Result<+T> = Ok(value: T) | Err(error: Error)

  /** The errors of the allocator and its range parser. */
  datatype Error =
      /** `*net.ParseError{Type: "CIDR address", Text: text}` from net.ParseCIDR. */
    | CidrParseError(text: string)
      /** "invalid range specified; expect format 10.0.0.100-10.0.0.200/24" */
    | RangeFormatError
      /** "no available IPs": the scan reached the end of the range. */
    | NoAvailableIPs
      /** The range's start did not parse as an address; Go panics in validIP here. */
    | InvalidStart
}
