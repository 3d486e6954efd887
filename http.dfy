/** Optional values and fallible results, in the usual shape. */
module Wrappers {

  datatype Option<+T> = None | Some(value: T)

  /** Either a value or the reason the computation stopped. */
  datatype Result<+R, +E> = Success(value: R) | Failure(error: E)
}

/** The HTTP values the server handles: bytes, status codes, requests, responses. */
module Http {

  import opened Wrappers

  type Byte = b: int | 0 <= b < 0x100

  /** Rust's `u16`, the width of `AccessLog::status_code`. */
  type U16 = x: int | 0 <= x < 0x1_0000

  /** The `http` crate's `StatusCode` holds a three-digit code; `as_u16` is the identity on it. */
  type StatusCode = s: int | 100 <= s < 1000 witness 200

  const StatusOk: StatusCode := 200
  const StatusNotFound: StatusCode := 404

  /** The metadata half of a request, as `Request::into_parts` yields it. */
  datatype Parts = Parts(httpMethod: string, uri: string, headers: seq<(string, string)>)

  /** A request whose body has arrived in full. */
  datatype Request = Request(parts: Parts, body: seq<Byte>)

  /** A response: status, the `Content-Type` header when one is set, and the body bytes. */
  datatype Response = Response(status: StatusCode, contentType: Option<string>, body: seq<Byte>)

  /**
   * The ways a request's handling stops on an `unwrap` of an error: reading an
   * existing path that cannot be read, and a request body that is not UTF-8.
   */
  datatype Fault = FileReadPanic | BodyDecodePanic
}
