/** Outcomes of the scalar decoders: the values they emit, or the exception they throw. */
module Results {

  datatype Option<T> = None | Some(value: T)

  /** The three error kinds behind the `std::runtime_error`s the scalar decoders throw; the
      `'+'` and `'-'` messages of a misplaced sign are merged into one kind. */
  datatype ErrorKind =
    | WrongCharacter          // a byte that is neither a digit, a sign (signed only) nor a separator
    | SignAfterNonSeparator   // '+' or '-' that does not follow a separator or the start of input
    | SignWithoutDigits       // a separator right after '+' or '-'

  /** `Ok` carries the whole output sequence; `Err` names the exception and the index of the byte
      whose processing raised it. */
  datatype Outcome<T> = Ok(values: seq<T>) | Err(kind: ErrorKind, at: nat)

  /** Glues the outcomes of the two sides of a separator: the first error wins, positions in
      the right side are shifted by `offset`. */
  function Join<T>(left: Outcome<T>, right: Outcome<T>, offset: nat): Outcome<T>
  {
    match left
    case Err(_, _) => left
    case Ok(l) =>
      match right
      case Err(kind, at) => Err(kind, offset + at)
      case Ok(r) => Ok(l + r)
  }
}
