/**
 What `valid_chain` accepts: every block after the first names the hash of the
 block before it and solves the puzzle posed by that block's proof. The first
 block is taken as it is; nothing checks it or any block's `index`.
 */
module Validation {
  import opened Blocks
  import opened Hashing

  /** The two checks `valid_chain` makes of one block `b` against its predecessor `prev`. */
  predicate LinkOk(lib: Library, prev: Block, b: Block)
  {
    b.previousHash == Digest(BlockHash(lib, prev)) && ValidProof(lib, prev.proof, b.proof)
  }

  /** Every adjacent pair of the chain is linked by hash and by proof. */
  predicate ValidLinks(lib: Library, chain: seq<Block>)
  {
    forall i :: 0 < i < |chain| ==> LinkOk(lib, chain[i - 1], chain[i])
  }

  /** A chain of one block is always accepted: there is no pair to check. */
  lemma SingleBlockValid(lib: Library, b: Block)
    ensures ValidLinks(lib, [b])
  {
  }

  /** Extending a chain keeps it valid exactly when the new block links to the old last one. */
  lemma ValidLinksAppend(lib: Library, chain: seq<Block>, b: Block)
    requires 0 < |chain|
    ensures ValidLinks(lib, chain + [b]) <==>
      ValidLinks(lib, chain) && LinkOk(lib, chain[|chain| - 1], b)
  {
    var c := chain + [b];
    assert c[..|chain|] == chain;
    assert c[|chain|] == b;
    if ValidLinks(lib, chain) && LinkOk(lib, chain[|chain| - 1], b) {
      forall i | 0 < i < |c|
        ensures LinkOk(lib, c[i - 1], c[i])
      {
        if i < |chain| {
          assert c[i - 1] == chain[i - 1] && c[i] == chain[i];
        }
      }
    }
    if ValidLinks(lib, c) {
      forall i | 0 < i < |chain|
        ensures LinkOk(lib, chain[i - 1], chain[i])
      {
        assert c[i - 1] == chain[i - 1] && c[i] == chain[i];
      }
      assert LinkOk(lib, c[|chain| - 1], c[|chain|]);
    }
  }
}
