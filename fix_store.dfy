/**
  The two record slots: `gps_data` (working, filled by the decoder) and `gps_buffer`
  (published, read by the bus server), and the publish step that ends `parseData`.
*/
module FixStore {
  import opened Bytes
  import opened FixRecord

  datatype Store = Store(working: Fix, published: seq<Byte>)

  predicate Valid(s: Store) {
    |s.published| == ImageSize
  }

  /**
    The end of `parseData`: when the bus has seen a stop condition (`stop`, the `P` bit), the
    working record is copied byte for byte into the published slot and then cleared; otherwise
    neither slot changes.
  */
  function Publish(s: Store, stop: bool): (r: Store)
    requires Valid(s)
    ensures Valid(r)
    ensures stop ==> r.published == Image(s.working) && r.working == Cleared
    ensures stop ==> FromImage(r.published) == s.working
    ensures !stop ==> r == s
  {
    if stop then Store(Cleared, Image(s.working)) else s
  }
}
