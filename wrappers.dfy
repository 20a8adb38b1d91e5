/** Option and Result, plus the failures the modelled code raises. Each Error
    constructor stands for the .NET exception the source throws on that path. */
module Wrappers {

  /** A value or its absence (a C# null). */
  datatype Option<+T> = None | Some(value: T)

  /** The exceptions of the modelled code, by cause. */
  datatype Error =
    | FileNotFound(path: string)            // FileNotFoundException from OpenPackage
    | OpenFailed(path: string)              // Package.Open on a file that is not a package
    | RelationshipNotFound(message: string) // ArgumentException from GetPackagePart
    | PartNotFound(uri: string)             // InvalidOperationException from Package.GetPart
    | MalformedXml(uri: string)             // XmlException from XDocument.Load
    | NoPagesFound(message: string)         // ArgumentException from ThrowOnNoPages
    | IndexOutOfRange(index: nat)           // ArgumentOutOfRangeException from ElementAt
    | DuplicateKey(key: string)             // ArgumentException from Dictionary.Add
    | NullReference                         // NullReferenceException

  /** A value, or the exception that ended the computation. */
  datatype Result<+T> = Ok(value: T) | Err(error: Error) {

    predicate IsFailure() {
      Err?
    }

    function PropagateFailure<U>(): Result<U>
      requires Err?
    {
      Err(error)
    }

    function Extract(): T
      requires Ok?
    {
      value
    }
  }

  /** Success without a value, or the exception raised. */
  datatype Outcome = Pass | Fail(error: Error) {

    predicate IsFailure() {
      Fail?
    }

    function PropagateFailure<U>(): Result<U>
      requires Fail?
    {
      Err(error)
    }
  }
}
