/** Failures that end a call of the collector, and the result types that carry them.
    Every failure in the source is an exception (a server error, or an OS error from
    the directory listing); here each is a value, tagged with what went wrong. */
module Errors {

  datatype Error =
    | NotADirectory(path: string)      // the configuration directory is rejected
    | ListingFailed(path: string)      // the configuration directory cannot be listed
    | ReadFailed(certPath: string)     // a present cert.pem cannot be read
    | ParseFailed(certPath: string)    // a present cert.pem is not a PEM X.509 certificate
    | GaugeWriteFailed(name: string)   // a gauge refused the certificate name

  datatype Result<T> = Ok(value: T) | Err(error: Error)

  datatype Outcome = Pass | Fail(error: Error)
}
