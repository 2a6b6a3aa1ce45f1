/** Division of polynomials over two elements, written as their coefficients, the highest first. */
module Division {
  import opened Bytes

  /** `p` with its leading coefficients added to. */
  function AddTo(p: Bits, first: Bits): (sum: Bits)
    requires |first| <= |p|
    ensures |sum| == |p|
  {
    seq(|p|, i requires 0 <= i < |p| => if i < |first| then p[i] != first[i] else p[i])
  }

  /** The last `|generator|` coefficients after dividing by the polynomial of that degree whose leading coefficient is one
      and whose others are `generator`. */
  function Remainder(p: Bits, generator: Bits): (rest: Bits)
    requires |generator| <= |p|
    ensures |rest| == |generator|
    decreases |p|
  {
    if |p| == |generator| then p
    else Remainder(if p[0] then AddTo(p[1..], generator) else p[1..], generator)
  }
}
