/** What several parts of the system have in common. */
module Netpod {

  datatype Shape = Scalar | Wave(count: nat) | Image(width: nat, height: nat)
}
