/** Operations that a loss of power may cut: the device stops inside them, and the next start finds what they left. */
module PowerLoss {
  datatype Op<+T> = Done(value: T) | PowerCut {
    predicate IsFailure() { PowerCut? }

    function PropagateFailure<U>(): Op<U>
      requires PowerCut?
    {
      Op<U>.PowerCut
    }

    function Extract(): T
      requires Done?
    {
      value
    }
  }
}
