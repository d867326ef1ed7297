/** The height argument that both renderers validate before producing any output,
    and the errors they throw. */
module Input {

  /** What the caller passes as `height`:
      - Empty: a value other than a number that is loosely equal to "" (the empty string,
        false, an empty array);
      - NotANumber: a value that JavaScript's isNaN reports as not a number;
      - Numeric: a finite number, which is what the HTTP service passes;
      - Coercible: any other value, which Number() converts to a finite number (a numeric
        string, a blank string, null). */
  datatype HeightInput = Empty | NotANumber | Numeric(value: real) | Coercible(value: real)

  datatype RoseError = TypeError(message: string) | RangeError(message: string)

  /** A rendered result, or the error thrown instead of returning one. */
  datatype Result<T> = Ok(value: T) | Err(error: RoseError)

  /** The inputs that convert to a number. */
  predicate Converts(height: HeightInput)
  {
    height.Numeric? || height.Coercible?
  }

  /** The three checks, in the order the renderers make them and with the outcomes their
      documentation gives: an empty height, then one that is not a number, then one that
      is not positive. */
  function ValidateHeight(height: HeightInput): (r: Result<real>)
    ensures r.Ok? <==> Converts(height) && height.value > 0.0
    ensures r.Ok? ==> r.value == height.value
    ensures height.Empty? ==> r == Err(TypeError("Empty"))
    ensures height.NotANumber? ==> r == Err(TypeError("Not a number"))
    ensures Converts(height) && height.value <= 0.0 ==> r == Err(RangeError("Height cannot be <= 0"))
  {
    match height
    case Empty => Err(TypeError("Empty"))
    case NotANumber => Err(TypeError("Not a number"))
    case Numeric(h) => if h <= 0.0 then Err(RangeError("Height cannot be <= 0")) else Ok(h)
    case Coercible(h) => if h <= 0.0 then Err(RangeError("Height cannot be <= 0")) else Ok(h)
  }

  /** `height == ""` with JavaScript's loose equality, which converts "" to the number 0
      when height is a number. */
  predicate LooselyEmpty(height: HeightInput)
  {
    height.Empty? || height == Numeric(0.0)
  }

  /** The checks as the renderers write them, with the loose comparison first. */
  function ValidateHeightAsWritten(height: HeightInput): (r: Result<real>)
    ensures LooselyEmpty(height) ==> r == Err(TypeError("Empty"))
    ensures r.Ok? <==> Converts(height) && height.value > 0.0
  {
    if LooselyEmpty(height) then Err(TypeError("Empty"))
    else if height.NotANumber? then Err(TypeError("Not a number"))
    else if height.value <= 0.0 then Err(RangeError("Height cannot be <= 0"))
    else Ok(height.value)
  }

  /** The number 0 passes for empty: the written checks throw TypeError("Empty") where the
      documented one is the RangeError for a height that is not positive. */
  lemma ZeroHeightIsEmpty()
    ensures ValidateHeightAsWritten(Numeric(0.0)) == Err(TypeError("Empty"))
    ensures ValidateHeight(Numeric(0.0)) == Err(RangeError("Height cannot be <= 0"))
  {
  }

  /** The written checks and the documented ones differ on the number 0 and nowhere else. */
  lemma ValidationAgreesSaveZero(height: HeightInput)
    ensures ValidateHeightAsWritten(height) == ValidateHeight(height) <==> height != Numeric(0.0)
  {
  }
}
