/** Record identifiers (table.h): a block address and a slot number. */
module Rids {

  datatype RID = RID(addr: int, idx: int)

  const NULL_RID := RID(-1, 0)
}
