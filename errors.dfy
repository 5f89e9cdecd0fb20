/** Values that cross the boundary between the adapter, the OpenSSL engine and the
    transport: the `io::Error` and `ssl::Error` shapes the retry loops look at, and
    the one pure function of the core, the mapping of an engine error to an I/O error. */
module Errors {

  newtype byte = x: int | 0 <= x < 256

  datatype Option<+T> = None | Some(value: T)

  /** Rust's `Result`. */
  datatype Result<+T, +E> = Ok(value: T) | Err(error: E)

  /** The `io::ErrorKind`s the loops distinguish, plus a few that a transport reports. */
  datatype ErrorKind = WouldBlock | UnexpectedEof | BrokenPipe | ConnectionReset | Other

  /** An `io::Error`: either one raised by the transport (an OS error with its kind),
      or an engine error wrapped by `io::Error::new(ErrorKind::Other, _)`. */
  datatype IoError =
    | Os(osKind: ErrorKind, errno: int)
    | Wrapped(ssl: SslError)

  /** The value of `SSL_get_error` as the openssl crate's `ErrorCode` exposes it.
      `OtherCode` stands for every code the loops do not name (SSL_ERROR_SSL,
      SSL_ERROR_WANT_X509_LOOKUP, ...), carried by its numeric value. */
  datatype Code = ZeroReturn | WantRead | WantWrite | Syscall | OtherCode(raw: int)

  /** What an `ssl::Error` carries besides its code: an I/O error from the
      transport bridge, OpenSSL's error stack, or nothing. */
  datatype Cause = NoCause | Io(io: IoError) | Stack(reasons: seq<int>)

  /** An `ssl::Error`. */
  datatype SslError = SslError(code: Code, cause: Cause)
  {
    /** `ssl::Error::io_error().is_none()`. */
    predicate NoIoError() { !cause.Io? }

    /** `WANT_READ` or `WANT_WRITE`: the engine asks to be called again after I/O. */
    predicate IsWant() { code.WantRead? || code.WantWrite? }
  }

  /** `ssl::ShutdownResult`: our close_notify went out, or the peer's came in. */
  datatype ShutdownResult = Sent | Received

  function Kind(e: IoError): ErrorKind
  {
    match e
    case Os(k, _) => k
    case Wrapped(_) => Other
  }

  /** `ssl_err_into_io`: an engine error that carries an I/O error becomes that I/O
      error unchanged; any other is wrapped, with kind `Other`, so nothing is lost. */
  function SslErrIntoIo(e: SslError): (r: IoError)
    ensures e.cause.Io? ==> r == e.cause.io
    ensures !e.cause.Io? ==> Kind(r) == Other && r.Wrapped? && r.ssl == e
  {
    match e.cause
    case Io(io) => io
    case _ => Wrapped(e)
  }
}
