/** The pointer cell of a slot, which the concurrent models of all three types share. */
module Pointers {
  datatype Ptr = Null | At(addr: nat)
}
