/**
 * The few .NET runtime notions the membership code leans on: nullable
 * references (Option), bytes, points in time, and the exceptions it throws
 * or lets through, together with the message text each one carries.
 */
module Runtime {

  /** A C# reference that may be null. */
  datatype Option<+T> = None | Some(value: T) {
    /** `x ?? d` and `GetValueOrDefault`. */
    function GetOr(default: T): T {
      match this
      case Some(v) => v
      case None => default
    }
  }

  /** Either the value an operation produced or the exception it threw. */
  datatype Result<+T> = Success(value: T) | Failure(error: Exception)

  /** An element of a C# `byte[]`. */
  type byte = bv8

  /** A `DateTimeOffset`, as a count of ticks; `default(DateTimeOffset)` is tick 0. */
  type Instant = int

  const DefaultInstant: Instant := 0

  /** The exceptions that reach the code modelled here. */
  datatype Exception =
    | ArgumentException(text: string, paramName: string)
    | NullReferenceException
    | KeyNotFoundException(key: string)
    | JsonSerializationException(path: string)
    | ServiceException(serviceMessage: string)
    | InvalidCastException(fromType: string, toType: string)
    | DecoderFallbackException(text: string)
    | CsvHelperException(text: string)

  /** `Environment.NewLine`, taken as on Windows. */
  const NewLine := "\r\n"

  /** `Exception.Message` as .NET Core 2.2 formats it. */
  function Message(e: Exception): (m: string)
    ensures e.ArgumentException? ==> e.text <= m
    ensures e.ServiceException? ==> m == e.serviceMessage
  {
    match e
    case ArgumentException(text, paramName) => text + NewLine + "Parameter name: " + paramName
    case NullReferenceException => "Object reference not set to an instance of an object."
    case KeyNotFoundException(key) => "The given key '" + key + "' was not present in the dictionary."
    case JsonSerializationException(path) => "Error converting value at '" + path + "'."
    case ServiceException(serviceMessage) => serviceMessage
    case DecoderFallbackException(text) => text
    case CsvHelperException(text) => text
    case InvalidCastException(fromType, toType) =>
      "Unable to cast object of type '" + fromType + "' to type '" + toType + "'."
  }
}
