/**
 * Outcomes of the mechanisms: a value, or the Ruby exception class that
 * would be raised. The library's own classes (lib/net/sasl.rb) hang below
 * `StandardError`; the others are the Ruby built-ins the mechanisms raise,
 * explicitly or by calling a method on `nil` or on the wrong kind of value.
 */
module Errors {

  datatype Option<+T> = None | Some(value: T)

  datatype ExceptionClass =
    | Exception
    | ScriptError
    | NotImplementedError
    | StandardError
    | ArgumentError
    | TypeError
    | NameError
    | NoMethodError
      /** `Net::SASL::Error` */
    | SaslError
      /** `Net::SASL::DataFormatError` */
    | DataFormatError
      /** `Net::SASL::ChallengeParseError` */
    | ChallengeParseError

  /** The direct superclass of each exception class. */
  function Superclass(c: ExceptionClass): Option<ExceptionClass> {
    match c
    case Exception => None
    case ScriptError => Some(Exception)
    case NotImplementedError => Some(ScriptError)
    case StandardError => Some(Exception)
    case ArgumentError => Some(StandardError)
    case TypeError => Some(StandardError)
    case NameError => Some(StandardError)
    case NoMethodError => Some(NameError)
    case SaslError => Some(StandardError)
    case DataFormatError => Some(SaslError)
    case ChallengeParseError => Some(SaslError)
  }

  /** Distance from the root of the hierarchy; it strictly drops towards the superclass. */
  function Depth(c: ExceptionClass): nat {
    match c
    case Exception => 0
    case ScriptError => 1
    case StandardError => 1
    case NotImplementedError => 2
    case ArgumentError => 2
    case TypeError => 2
    case NameError => 2
    case SaslError => 2
    case NoMethodError => 3
    case DataFormatError => 3
    case ChallengeParseError => 3
  }

  /** `c <= ancestor`: what `rescue ancestor` catches. */
  predicate IsA(c: ExceptionClass, ancestor: ExceptionClass)
    decreases Depth(c)
  {
    c == ancestor || (Superclass(c).Some? && IsA(Superclass(c).value, ancestor))
  }

  /** `rescue Net::SASL::Error` catches exactly the library's three classes. */
  lemma SaslErrorFamily(c: ExceptionClass)
    ensures IsA(c, SaslError) <==> c == SaslError || c == DataFormatError || c == ChallengeParseError
  {
  }

  datatype Result<+T> = Ok(value: T) | Raise(error: ExceptionClass)
}
