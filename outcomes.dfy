/** Failure-compatible wrappers shared by every module of the model. */
module Outcomes {

  /** Ruby's `nil` against a present value. */
  datatype Option<+T> = None | Some(value: T)

  /** A value, or the reason the cookbook stopped the run. */
  datatype Result<+T, +E> = Ok(value: T) | Err(error: E)

  /** An operation that only succeeds or stops the run. */
  datatype Outcome<+E> = Pass | Fail(error: E)
}

/** The reasons for which the crypto helper calls `Chef::Application.fatal!`. */
module CryptoFailures {

  datatype FatalError =
    | ExtractFailed(filter: string)             // unzip reported a non-zero status
    | AmbiguousStandalone(found: set<string>)   // crypto tmp dir does not hold exactly one file
    | AmbiguousGraniteCrypto(found: set<string>) // not exactly one com.adobe.granite.crypto jar
    | DisassembleFailed                         // javap failed or printed no version lines
    | CompileFailed                             // javac reported a non-zero status
    | MasterKeyDownloadFailed(code: string)     // GET /etc/key/master did not answer 200
    | MasterKeyWriteFailed                      // the key could not be written to the tmp dir
    | WrongNumberOfArguments                    // Decrypt exit status 1
    | MasterKeyUnreadable                       // Decrypt exit status 2
    | CipherInitFailed                          // Decrypt exit status 4
    | MasterKeyMissing                          // Decrypt exit status 5
}
