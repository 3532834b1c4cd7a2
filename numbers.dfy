/** Integer helpers shared by the solvers. */
module Numbers {

  /** Python's `abs` on integers. */
  function Abs(x: int): nat {
    if x < 0 then -x else x
  }
}
