/** Machine-level building blocks shared by the frame and version modules. */
module Primitives {

  /** An unsigned 8-bit value (Rust `u8`). */
  newtype byte = b: int | 0 <= b < 256

  /** Rust's `Option`: `None` for "no frame", `Some` for a built frame. */
  datatype Option<+T> = None | Some(value: T)

  /** Multiplication is monotone in each argument (for naturals). */
  lemma MulLe(a: nat, b: nat, c: nat)
    requires a <= b
    ensures a * c <= b * c && c * a <= c * b
  {
  }
}
