/** What a codec can say about the octets at the front of a stream. */
module Framing {

  datatype Cut =
    | More                               // not enough octets to decide
    | Reject                             // the codec throws
    | Stray                              // a header the codec does not guard against
    | Whole(size: nat, heartbeat: bool)  // one whole frame of `size` octets

  datatype DecodeStatus = NeedData | Ready | Failed

  /** The outcome of decoding on octets not yet delivered, as their cut demands it. */
  predicate Agrees(status: DecodeStatus, c: Cut) {
    match c
    case More => status == NeedData
    case Whole(_, _) => status == Ready
    case _ => status == Failed
  }
}
