/**
 The `Blockchain` object: the chain, the pool of pending transactions and the
 set of peer addresses, with the operations that update them in place, the two
 search loops, and the ledger steps of the `/mine` handler.
 */
module Ledger {
  import opened Blocks
  import opened Hashing
  import opened Validation
  import opened Consensus

  /** The answers of the peers in `peers`, fetched one after the other. */
  function Fetched(peers: seq<string>, fetch: string -> Response): seq<Response>
  {
    seq(|peers|, i requires 0 <= i < |peers| => fetch(peers[i]))
  }

  class Blockchain {
    /** The library calls (SHA-256, JSON, URL parsing) this ledger hashes and parses with. */
    const lib: Library
    var chain: seq<Block>
    var currentTransactions: seq<Transaction>
    var nodes: set<string>

    /** After construction the chain is never empty: only a validated, hence non-empty, chain replaces it. */
    ghost predicate Valid()
      reads this
    {
      0 < |chain|
    }

    /** `__init__`: empty pool and registry, then the genesis block sealed with proof 0 and previous hash 1. */
    constructor (lib: Library, now: real)
      ensures this.lib == lib
      ensures Valid()
      ensures chain == [Genesis(now)]
      ensures currentTransactions == [] && nodes == {}
      ensures ValidLinks(lib, chain) && NumberedFromOne(chain)
    {
      this.lib := lib;
      chain := [];
      currentTransactions := [];
      nodes := {};
      new;
      var g := NewBlock(0, Some(Sentinel(1)), now);
      SingleBlockValid(lib, g);
    }

    /** `last_block`: the final element of the chain. */
    function LastBlock(): (b: Block)
      requires Valid()
      reads this
      ensures b in chain
      ensures chain == chain[..|chain| - 1] + [b]
    {
      chain[|chain| - 1]
    }

    /**
     `new_block`: seals the pending pool into a block numbered one past the chain
     length, links it to the hash of the last block unless a truthy previous hash
     is given, appends it, and empties the pool. The source raises `IndexError`
     when the chain is empty and no truthy previous hash is given.
     */
    method NewBlock(proof: int, previousHash: Option<HashValue>, now: real) returns (b: Block)
      requires 0 < |chain| || Truthy(previousHash)
      modifies this
      ensures Valid()
      ensures chain == old(chain) + [b]
      ensures b.index == |old(chain)| + 1
      ensures b.timestamp == now && b.proof == proof
      ensures b.transactions == old(currentTransactions)
      ensures Truthy(previousHash) ==> b.previousHash == previousHash.value
      ensures !Truthy(previousHash) ==> b.previousHash == Digest(BlockHash(lib, old(chain)[|old(chain)| - 1]))
      ensures currentTransactions == [] && nodes == old(nodes)
      ensures NumberedFromOne(old(chain)) ==> NumberedFromOne(chain)
    {
      var link := if Truthy(previousHash) then previousHash.value
                  else Digest(BlockHash(lib, chain[|chain| - 1]));
      b := Block(|chain| + 1, now, currentTransactions, proof, link);
      currentTransactions := [];
      if NumberedFromOne(chain) {
        NumberedAppend(chain, b);
      }
      chain := chain + [b];
    }

    /**
     `new_transactions`: appends one record to the end of the pool and answers the
     index of the block after the last one, the block that will carry it.
     */
    method NewTransaction(sender: Value, recipient: Value, amount: Value) returns (next: int)
      requires Valid()
      modifies this
      ensures Valid()
      ensures currentTransactions == old(currentTransactions) + [Transaction(sender, recipient, amount)]
      ensures chain == old(chain) && nodes == old(nodes)
      ensures next == LastBlock().index + 1
      ensures NumberedFromOne(chain) ==> next == |chain| + 1
    {
      currentTransactions := currentTransactions + [Transaction(sender, recipient, amount)];
      next := LastBlock().index + 1;
    }

    /** `register_node`: adds the address's authority (host and port) to the registry; adding it again changes nothing. */
    method RegisterNode(address: string)
      modifies this
      ensures nodes == old(nodes) + {lib.netloc(address)}
      ensures lib.netloc(address) in old(nodes) ==> nodes == old(nodes)
      ensures chain == old(chain) && currentTransactions == old(currentTransactions)
    {
      nodes := nodes + {lib.netloc(address)};
    }

    /**
     `proof_of_work`: counts up from 0 and returns the first proof that solves the
     puzzle posed by `lastProof`. The source loops for ever when there is none;
     here one must exist.
     */
    method ProofOfWork(lastProof: int) returns (proof: int)
      requires exists w: nat :: ValidProof(lib, lastProof, w)
      ensures 0 <= proof && ValidProof(lib, lastProof, proof)
      ensures forall q :: 0 <= q < proof ==> !ValidProof(lib, lastProof, q)
    {
      ghost var w: nat :| ValidProof(lib, lastProof, w);
      proof := 0;
      while !ValidProof(lib, lastProof, proof)
        invariant 0 <= proof <= w
        invariant forall q :: 0 <= q < proof ==> !ValidProof(lib, lastProof, q)
        decreases w - proof
      {
        proof := proof + 1;
      }
    }

    /**
     `valid_chain`: walks the chain from its second block, failing at the first
     block that does not name its predecessor's hash or does not solve its
     predecessor's puzzle. The source indexes the first block unguarded.
     */
    method ValidChain(candidate: seq<Block>) returns (ok: bool)
      requires 0 < |candidate|
      ensures ok <==> ValidLinks(lib, candidate)
    {
      var lastBlock := candidate[0];
      var currentIndex := 1;
      while currentIndex < |candidate|
        invariant 1 <= currentIndex <= |candidate|
        invariant lastBlock == candidate[currentIndex - 1]
        invariant ValidLinks(lib, candidate[..currentIndex])
      {
        var block := candidate[currentIndex];
        if block.previousHash != Digest(BlockHash(lib, lastBlock)) {
          assert !LinkOk(lib, candidate[currentIndex - 1], candidate[currentIndex]);
          return false;
        }
        if !ValidProof(lib, lastBlock.proof, block.proof) {
          assert !LinkOk(lib, candidate[currentIndex - 1], candidate[currentIndex]);
          return false;
        }
        ValidLinksAppend(lib, candidate[..currentIndex], block);
        assert candidate[..currentIndex] + [block] == candidate[..currentIndex + 1];
        lastBlock := block;
        currentIndex := currentIndex + 1;
      }
      assert candidate[..currentIndex] == candidate;
      return true;
    }

    /**
     The peer loop of `resolve_conflicts`: starting from the local chain and its
     length, a 200 answer that reports a greater length and validates becomes
     the candidate. An empty chain that wins on length raises.
     */
    method LongestValidChain(responses: seq<Response>) returns (r: Result<Candidate>)
      ensures r == Fold(lib, Initial(chain), responses)
    {
      var maxLength := |chain|;
      var newChain := chain;
      var i := 0;
      while i < |responses|
        invariant 0 <= i <= |responses|
        invariant Fold(lib, Initial(chain), responses[..i]) == Ok(Candidate(maxLength, newChain))
      {
        assert responses[..i + 1][..i] == responses[..i];
        var response := responses[i];
        if response.Answer? {
          var length := response.length;
          var peer := response.chain;
          if length > maxLength {
            if |peer| == 0 {
              FoldErrPersists(lib, Initial(chain), responses, i + 1);
              return Err(EmptyPeerChain);
            }
            var valid := ValidChain(peer);
            if valid {
              maxLength := length;
              newChain := peer;
            }
          }
        }
        i := i + 1;
      }
      assert responses[..i] == responses;
      return Ok(Candidate(maxLength, newChain));
    }

    /**
     `resolve_conflicts` as written: after the peer loop the chain becomes the
     candidate, and the answer is `True` because the candidate is non-empty,
     whether or not a peer's chain was taken. An empty winning chain raises and
     leaves the chain as it was. `peers` lists the registry in iteration order.
     */
    method ResolveConflicts(peers: seq<string>, fetch: string -> Response) returns (r: Result<bool>)
      requires Valid()
      requires multiset(peers) == multiset(nodes)
      modifies this
      ensures Valid()
      ensures nodes == old(nodes) && currentTransactions == old(currentTransactions)
      ensures var f := Fold(lib, Initial(old(chain)), Fetched(peers, fetch));
        && (f.Err? ==> r == Err(f.error) && chain == old(chain))
        && (f.Ok? ==> r == Ok(true) && chain == f.value.chain)
      ensures peers == [] ==> r == Ok(true) && chain == old(chain)
    {
      var responses := Fetched(peers, fetch);
      var outcome := LongestValidChain(responses);
      if outcome.Err? {
        return Err(outcome.error);
      }
      FoldOutcome(lib, Initial(chain), responses);
      var newChain := outcome.value.chain;
      var replaced := |newChain| > 0;
      if replaced {
        chain := newChain;
      }
      return Ok(replaced);
    }

    /**
     `resolve_conflicts` as evidently intended: a peer's chain is judged by its
     own length, and the answer says whether the local chain was replaced.
     */
    method ResolveConflictsCorrected(peers: seq<string>, fetch: string -> Response) returns (replaced: bool)
      requires Valid()
      requires multiset(peers) == multiset(nodes)
      modifies this
      ensures Valid()
      ensures nodes == old(nodes) && currentTransactions == old(currentTransactions)
      ensures var f := Fold(lib, Initial(old(chain)), Honest(Fetched(peers, fetch)));
        f.Ok? && chain == f.value.chain
      ensures replaced ==> |chain| > |old(chain)|
      ensures !replaced ==> chain == old(chain)
      ensures replaced <==> exists k :: 0 <= k < |peers| && Acceptable(lib, fetch(peers[k])) && |fetch(peers[k]).chain| > |old(chain)|
    {
      var responses := Fetched(peers, fetch);
      HonestFoldNeverShortens(lib, chain, responses);
      HonestFoldReplaces(lib, chain, responses);
      assert |responses| == |peers| && forall k :: 0 <= k < |peers| ==> responses[k] == fetch(peers[k]);
      var outcome := LongestValidChain(Honest(responses));
      var c := outcome.value;
      replaced := c.maxLength > |chain|;
      chain := c.chain;
    }

    /**
     The ledger steps of `/mine`: solve the puzzle of the last block's proof,
     credit the reward to the pool, and seal. The sealed block carries the pool
     followed by the reward, links to the old last block by hash and by proof,
     so a valid chain stays valid.
     */
    method Mine(now: real) returns (b: Block)
      requires Valid()
      requires exists w: nat :: ValidProof(lib, LastBlock().proof, w)
      modifies this
      ensures Valid()
      ensures chain == old(chain) + [b]
      ensures b.index == |old(chain)| + 1
      ensures b.transactions == old(currentTransactions) + [Reward()]
      ensures LinkOk(lib, old(LastBlock()), b)
      ensures 0 <= b.proof && b.timestamp == now
      ensures forall q :: 0 <= q < b.proof ==> !ValidProof(lib, old(LastBlock()).proof, q)
      ensures currentTransactions == [] && nodes == old(nodes)
      ensures ValidLinks(lib, old(chain)) ==> ValidLinks(lib, chain)
      ensures NumberedFromOne(old(chain)) ==> NumberedFromOne(chain)
    {
      var lastBlock := LastBlock();
      var lastProof := lastBlock.proof;
      var proof := ProofOfWork(lastProof);
      var _ := NewTransaction(Int(0), Str("self address"), Int(1));
      b := NewBlock(proof, None, now);
      ValidLinksAppend(lib, old(chain), b);
    }
  }
}
