/**
 Enumerations shared by the two kinds of database.  The rank of a status is its index in the status
 table on the flash.
 */
module FdbDef {

  const ERASED_BYTE: bv8 := 0xFF

  datatype FdbErr = NO_ERR | READ_ERR | WRITE_ERR | KV_NAME_ERR | SAVED_FULL

  datatype KvStatus = UNUSED | PRE_WRITE | WRITE | PRE_DELETE | DELETED | ERR_HDR
  {
    function Rank(): nat {
      match this
      case UNUSED => 0
      case PRE_WRITE => 1
      case WRITE => 2
      case PRE_DELETE => 3
      case DELETED => 4
      case ERR_HDR => 5
    }
  }

  datatype Store = STORE_UNUSED | STORE_EMPTY | STORE_USING | STORE_FULL
  {
    function Rank(): nat {
      match this
      case STORE_UNUSED => 0
      case STORE_EMPTY => 1
      case STORE_USING => 2
      case STORE_FULL => 3
    }
  }

  datatype Dirty = DIRTY_UNUSED | DIRTY_FALSE | DIRTY_TRUE | DIRTY_GC
  {
    function Rank(): nat {
      match this
      case DIRTY_UNUSED => 0
      case DIRTY_FALSE => 1
      case DIRTY_TRUE => 2
      case DIRTY_GC => 3
    }
  }

  datatype TslStatus = TSL_UNUSED | TSL_PRE_WRITE | TSL_WRITE | TSL_USER_STATUS1 | TSL_DELETED | TSL_USER_STATUS2
}
