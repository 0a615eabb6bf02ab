/** The records of uthash: elements with their handle, and buckets. */
module HashTypes {

  /** The bytes of a key; its length is |key|. */
  type Key = seq<bv8>

  /** An element of the application together with its UT_hash_handle. */
  class Elem {
    var prev: Elem?      // application order
    var next: Elem?
    var hhPrev: Elem?    // bucket chain
    var hhNext: Elem?
    var key: Key
    var hashv: nat

    constructor ()
    {
      prev, next, hhPrev, hhNext := null, null, null, null;
      key, hashv := [], 0;
    }
  }

  /** An element as the table knows it: which object, under which key, with which hash value. */
  datatype Item = Item(elt: Elem, key: Key, hashv: nat)

  /** UT_hash_bucket. */
  datatype Bucket = Bucket(hhHead: Elem?, count: nat, expandMult: nat)
}
