/** The error taxonomy of the resize module and its "last error" cell. */
module ResizeErrors {
  import opened Machine

  const RESIZE_OK: i32 := 0
  const RESIZE_ERR_NULL_PTR: i32 := 1
  const RESIZE_ERR_INVALID_SIZE: i32 := 2
  const RESIZE_ERR_OVERFLOW: i32 := 3
  const RESIZE_ERR_MEMORY: i32 := 4
  const RESIZE_ERR_ALIGNMENT: i32 := 5
  const RESIZE_ERR_OVERLAP: i32 := 6

  /** One of the seven codes the module defines. */
  predicate IsKnownCode(code: int)
  {
    RESIZE_OK <= code <= RESIZE_ERR_OVERLAP
  }

  const UNKNOWN_MESSAGE: string := "Unknown error"

  /** The static message `get_last_error` hands out for a code (without its
      terminating NUL byte). */
  function MessageOf(code: i32): (m: string)
    ensures m != "" && (m == UNKNOWN_MESSAGE <==> !IsKnownCode(code))
  {
    match code
    case 0 => "OK"
    case 1 => "NULL pointer"
    case 2 => "Invalid size or dimensions"
    case 3 => "Overflow in size calculation"
    case 4 => "Memory error"
    case 5 => "Pointer alignment error"
    case 6 => "Memory regions overlap"
    case _ => UNKNOWN_MESSAGE
  }

  /** Distinct known codes have distinct messages, so a message identifies
      the code that was stored. */
  lemma MessagesIdentifyCodes(a: i32, b: i32)
    requires IsKnownCode(a) && IsKnownCode(b) && MessageOf(a) == MessageOf(b)
    ensures a == b
  {
  }

  /** The thread-local `LAST_ERROR_CODE` cell: the entry points that validate, or that fail, set it. */
  class ErrorCell {
    var code: i32

    /** The cell starts out holding `RESIZE_OK`. */
    constructor ()
      ensures code == RESIZE_OK
    {
      code := RESIZE_OK;
    }

    /** `set_last_error`. */
    method Set(c: i32)
      modifies this
      ensures code == c
    {
      code := c;
    }

    /** `get_last_error`: the message for the stored code, whatever it is. */
    method GetLastError() returns (m: string)
      ensures m == MessageOf(code)
      ensures IsKnownCode(code) ==> m != UNKNOWN_MESSAGE
    {
      m := MessageOf(code);
    }
  }
}
