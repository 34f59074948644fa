# A verified model of the `Blockchain` ledger of blockchain-py

This project models the ledger and consensus engine of a minimal proof-of-work node
(`blockchain.py`, class `Blockchain`). It covers the following parts:

- the node's mutable state: the chain, the pool of pending transactions, the set of peer addresses;
- sealing a block and submitting a transaction;
- the proof-of-work puzzle and its linear search;
- chain validation;
- the longest-valid-chain replacement against the answers of peers;
- the ledger steps of the `/mine` handler.

Modules, leaf first:

- `Blocks` (blocks.dfy): transactions, blocks, the `previous_hash` field (a digest string, or the
  integer 1 of the genesis block), Python truthiness of the optional previous hash, and the numbering
  of blocks from 1.
- `Hashing` (hashing.dfy): the foreign library calls as the function-valued fields of `Library`;
  the block hash; Python's `str(int)`; the string `valid_proof` hashes; the puzzle check.
- `Validation` (validation.dfy): `ValidLinks`, what `valid_chain` accepts, stated over all adjacent pairs.
- `Consensus` (consensus.dfy): the peer loop of `resolve_conflicts` as a left fold `Fold`, with the
  lemmas that say what it can end with.
- `Ledger` (ledger.dfy): the class `Blockchain` with fields `chain`, `currentTransactions` and `nodes`,
  whose methods update them in place. The loops `ValidChain`, `ProofOfWork` and `LongestValidChain`
  are proved against `ValidLinks`, `ValidProof` and `Fold`.

The model follows the code as written, including:

- The genesis block has index 1 and previous hash the integer 1.
- `valid_chain` requires a non-empty chain.
- `resolve_conflicts` compares a peer's reported `length`, not the length of the chain it sent.
- `resolve_conflicts` answers `True` whenever it does not raise.
- A falsy explicit previous hash (`""` or `0`) falls back to the computed hash.

The evidently intended `resolve_conflicts` judges a peer by the length of the chain it sent and
answers whether the chain was replaced. It is modelled beside the as-written one (see Findings).

## Model

| member | source | states |
|---|---|---|
| Blocks.NumberedAppend | blockchain.py:86 | appending to a chain whose blocks are numbered from 1 keeps that numbering exactly when the new block's index is the old length + 1 |
| Hashing.NatDecimal | blockchain.py:130 | the rendering of a non-negative proof is a non-empty string of decimal digits with no leading zero |
| Hashing.ParseNatDecimal | blockchain.py:130 | reading the rendered digits back gives the number again, so the rendering of one number is unambiguous |
| Hashing.ParseConcat | blockchain.py:130 | two digit strings written side by side read as the first number shifted left by the length of the second, plus the second |
| Hashing.ProofGuessReadsAsShiftedSum | blockchain.py:129-131 | for non-negative `lp` and `p`, the string `f'{lp}{p}'` that `valid_proof` hashes is all digits and reads as `lp * 10^len(str(p)) + p`; pairs that split the same digits at different places hash the same string |
| Hashing.GuessIsAmbiguous | blockchain.py:130-131 | the two numbers are concatenated without a separator, so `(1, 23)` and `(12, 3)` hash the same string `"123"` and get the same verdict for every digest function |
| Validation.SingleBlockValid | blockchain.py:65-81 | a chain of one block is always accepted |
| Validation.ValidLinksAppend | blockchain.py:65-81 | a non-empty chain extended by one block is valid iff the chain was valid and the new block names the old last block's hash and solves its puzzle |
| Consensus.FoldErrPersists | blockchain.py:44-54 | once a peer's empty chain has made `valid_chain` raise, the rest of the peers do not change the outcome |
| Consensus.FoldOutcome | blockchain.py:40-56 | the loop ends with the local chain, or with the chain of a 200 peer that validates, whose reported length beats the local length and every earlier acceptable peer's, and which reported the final `max_length`; no acceptable peer reported more than that |
| Consensus.FoldKeepsWhenNoLonger | blockchain.py:54-56 | when no peer reports a length above the local length, the local chain stays, whether the peers' chains validate or not |
| Consensus.ScenarioLongerValidWins | blockchain.py:44-56 | local length 2; a valid peer reporting 3, then an invalid peer reporting 5: the loop ends with the first peer's chain and length 3 |
| Consensus.InflatedLengthShortensChain | blockchain.py:48-56 | a peer that reports one more than the local length with a one-block chain has its chain taken, though it is shorter than a local chain of two or more blocks |
| Consensus.HonestFoldNeverShortens | blockchain.py:48-56 | with each peer's length taken from its chain, the loop never raises, its `max_length` is the length of its chain, and it ends with the local chain or a strictly longer one |
| Consensus.HonestFoldReplaces | blockchain.py:48-56 | with each peer's length taken from its chain, the loop ends above the local length iff some 200 peer sent a valid chain longer than the local one |
| Ledger.Blockchain.constructor | blockchain.py:20-28 | a new ledger holds exactly the genesis block (index 1, proof 0, previous hash the integer 1, no transactions), an empty pool and no peers; that chain is valid |
| Ledger.Blockchain.LastBlock | blockchain.py:115-117 | the last block is an element of the chain and the chain is its other blocks followed by it |
| Ledger.Blockchain.NewBlock | blockchain.py:84-96 | the chain grows by exactly the returned block and earlier blocks are unchanged; its index is the old length + 1; it carries the old pool in order; its previous hash is the argument when truthy, otherwise the hash of the old last block; the pool is emptied; peers are unchanged; numbering from 1 is kept |
| Ledger.Blockchain.NewTransaction | blockchain.py:99-106 | exactly one record `{sender, recipient, amount}` is added at the end of the pool; chain and peers are unchanged; the answer is the last block's index + 1, which is the chain length + 1 when blocks are numbered from 1 |
| Ledger.Blockchain.RegisterNode | blockchain.py:31-33 | the address's authority is added to the peers and nothing else changes; registering an authority already present changes nothing |
| Ledger.Blockchain.ProofOfWork | blockchain.py:120-126 | the answer is a non-negative proof that solves the puzzle of `lastProof`, and no smaller non-negative number does |
| Ledger.Blockchain.ValidChain | blockchain.py:65-81 | for a non-empty chain the answer is true iff every block after the first names its predecessor's hash and solves its predecessor's puzzle |
| Ledger.Blockchain.LongestValidChain | blockchain.py:40-56 | the peer loop ends with exactly the outcome of the longest-valid-chain fold from the local chain and its length, including the raise on an empty winning chain |
| Ledger.Blockchain.ResolveConflicts | blockchain.py:36-62 | when the loop raises, the chain is unchanged; otherwise the chain becomes the fold's candidate and the answer is `True`, even with no peers and the chain unchanged; the pool and the peers are unchanged |
| Ledger.Blockchain.ResolveConflictsCorrected | blockchain.py:36-62 | judging peers by the length of their chains: the chain becomes the fold's candidate; it is never shorter; the answer is true iff the chain was replaced by a strictly longer one, iff some 200 peer sent a valid chain longer than the local one |
| Ledger.Blockchain.Mine | blockchain.py:167-179 | the chain grows by one block that carries the old pool followed by the reward (sender 0, recipient `'self address'`, amount 1), is stamped with `now`, links to the old last block by hash and by the least non-negative solving proof; the pool is emptied; a valid chain stays valid and numbering from 1 is kept |

## Left out

- Ledger.Blockchain.ProofOfWork: the search is modelled only when some non-negative proof solves the puzzle. The source has no bound and loops for ever otherwise; the model proves the postcondition and minimality, not termination without a solution.
- Ledger.Blockchain.Mine: inherits the same precondition from the search.
- SHA-256, the sorted-key JSON encoding and `urlparse(...).netloc` (section 3.2 of RFC 3986) are function parameters (`Library`) with no properties. So nothing is claimed about digest collisions. The claim that changing a block changes its hash is out of reach.
- `time()` is a `real` parameter `now` with no properties; nothing is claimed about the order of timestamps.
- The network fetch `requests.get` is a parameter `fetch` from a peer address to its answer. `peers` lists the registry in iteration order, which the source leaves to Python's set order. Transport exceptions are not handled by the source and are not modelled. A peer's JSON is taken as already decoded into blocks; malformed payloads (`KeyError`) are not modelled.
- Transaction fields are integers, strings or numbers. Booleans, null and nested JSON values, which `/transactions/new` passes through unchanged, are not modelled.
- The Flask routes, HTTP status codes, JSON responses, argument parsing and server start-up are not modelled. Only the ledger steps of `/mine` are.
- `valid_chain` does not check block indices or the first block. The model states the same, so a replacement chain need not be numbered from 1.

## Findings

| source | as written | input that shows it | evidently intended | confidence | as-written member | corrected member |
|---|---|---|---|---|---|---|
| blockchain.py:48-56 | a peer is compared by the `length` it reports, not by `len(chain)` | local chain of 2 blocks; one peer answers 200 with `length` 3 and a chain of one block; that chain replaces the local one | compare the length of the peer's chain, so the local chain never gets shorter | medium, not executed | Consensus.InflatedLengthShortensChain | Ledger.Blockchain.ResolveConflictsCorrected |
| blockchain.py:58-62 | `if new_chain:` is true for every non-empty candidate, and the local chain is non-empty, so the answer is `True` even when nothing was replaced; the `/nodes/resolve` handler's "authoritative" branch is unreachable | no peers registered: the chain is unchanged and the answer is `True` | answer whether a peer's chain replaced the local one | high, not executed | Ledger.Blockchain.ResolveConflicts | Ledger.Blockchain.ResolveConflictsCorrected |
