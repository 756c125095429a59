/** Shared vocabulary of the two file-content validators: the bytes of a
    `Uint8Array`, JavaScript's out-of-range read, and the verdict a
    validation promise settles with. */
module Validation {

  /** One element of a `Uint8Array`. */
  type Byte = x: int | 0 <= x < 256

  /** `buf[i] === v` in JavaScript: reading a typed array outside its bounds
      (including at a negative index) yields `undefined`, which is never
      strictly equal to a number, so such a read never matches. */
  predicate ReadIs(buf: seq<Byte>, i: int, v: int)
  {
    0 <= i < |buf| && buf[i] == v
  }

  /** How a validation promise settles: `resolve(true)` or `reject(reason)`. */
  datatype Verdict = Accepted | Rejected(reason: string)
}
