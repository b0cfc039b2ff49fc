/** Failure results of the field and polynomial engine. The source signals every
    one of these by throwing; the model returns them as values. */
module Errors {

  datatype Error =
    | InvalidParameterSet   // parameter-set index outside the table's valid range
    | UnsupportedLambda     // lambda is not one of 4, 5, 6
    | SizeMismatch          // operands of different lengths, or no interpolation points
    | LengthError           // a vector size computed as size_t wrapped around

  datatype Result<+T> = Ok(value: T) | Err(error: Error)
}
