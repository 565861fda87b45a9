/** The failure kinds of the codec and the small wrapper types that carry them.
    Each constructor of Error stands for one exception the Python program raises. */
module Outcomes {

  datatype Error =
    | InvalidBitwidth   // bitwidth outside (1, 2, 4, 8): the explicit ValueError, the TypeError hide.py:31 raises while building its argparse error, or the shift error a bad width provokes
    | NotEnoughSpace    // the capacity check of encode
    | LengthOverflow    // len(src).to_bytes(4, 'big') with len(src) >= 2^32 (OverflowError)
    | EmptyImage        // dest[0] / data[0] on an image with no samples (IndexError)
    | ShapeMismatch     // dest[start:end] |= syms when syms neither match the clipped slice in length nor are a single symbol (numpy broadcast ValueError)
    | MissingBitwidth   // decode with neither infer nor a non-zero bitwidth
    | NoTerminator      // data.index(0) finds no zero byte (ValueError)
    | ShortHeader       // fewer than four length bytes after the terminator (IndexError)

  datatype Option<+T> = None | Some(value: T)

  datatype Result<+T> = Ok(value: T) | Err(error: Error)

  /** A computation that either completes or stops with an error, carrying no value. */
  datatype Outcome = Pass | Fail(error: Error)
}
