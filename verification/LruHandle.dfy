/** The entry of the LRU cache, shared by the hash table, the LRU list and the clients. */
module LruHandles {
  type Key = int

  class LRUHandle {
    const key: Key
    const hash: nat
    /** CalcTotalCharge: what the entry counts for. */
    const totalCharge: nat
    const isHighPri: bool

    var nextHash: LRUHandle?
    var next: LRUHandle?
    var prev: LRUHandle?
    var refs: nat
    var inCache: bool
    var inHighPriPool: bool
    var hasHit: bool

    constructor (key: Key, hash: nat, totalCharge: nat, isHighPri: bool)
      ensures this.key == key && this.hash == hash && this.totalCharge == totalCharge && this.isHighPri == isHighPri
      ensures next == null && prev == null && refs == 0 && inCache && !inHighPriPool && !hasHit
    {
      this.key, this.hash, this.totalCharge, this.isHighPri := key, hash, totalCharge, isHighPri;
      nextHash, next, prev, refs := null, null, null, 0;
      inCache, inHighPriPool, hasHit := true, false, false;
    }

    predicate Matches(k: Key, h: nat) {
      hash == h && key == k
    }

    function Id(): (nat, Key) {
      (hash, key)
    }
  }
}
