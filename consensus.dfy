/**
 The longest-valid-chain rule of `resolve_conflicts`, as a left fold over the
 peers' answers in the order they are fetched. The state of the fold is the
 pair (`max_length`, `new_chain`) the source updates.
 */
module Consensus {
  import opened Blocks
  import opened Hashing
  import opened Validation

  /** One peer's answer to `GET /chain`: any non-200 status, or the decoded `length` and `chain`. */
  datatype Response = Unavailable | Answer(length: int, chain: seq<Block>)

  /** The best chain known so far and the length it was accepted with. */
  datatype Candidate = Candidate(maxLength: int, chain: seq<Block>)

  /** `valid_chain` indexes `chain[0]`; a peer that sends an empty chain makes it raise `IndexError`. */
  datatype Error = EmptyPeerChain

  datatype Result<+T> = Ok(value: T) | Err(error: Error)

  /** The fold starts from the local chain and its own length. */
  function Initial(local: seq<Block>): Candidate
  {
    Candidate(|local|, local)
  }

  /** A 200 answer whose chain is non-empty and passes `valid_chain`. */
  predicate Acceptable(lib: Library, r: Response)
  {
    r.Answer? && |r.chain| > 0 && ValidLinks(lib, r.chain)
  }

  /**
   One iteration of the peer loop: a peer replaces the candidate only when it
   answered 200, reports a length strictly above `max_length`, and its chain
   validates. The length test comes first, so an empty chain raises only when
   its reported length wins.
   */
  function Consider(lib: Library, c: Candidate, r: Response): Result<Candidate>
  {
    match r
    case Unavailable => Ok(c)
    case Answer(length, peer) =>
      if length <= c.maxLength then Ok(c)
      else if |peer| == 0 then Err(EmptyPeerChain)
      else if ValidLinks(lib, peer) then Ok(Candidate(length, peer))
      else Ok(c)
  }

  /** The whole loop: the answers in fetch order; the first error ends it. */
  function Fold(lib: Library, c0: Candidate, rs: seq<Response>): Result<Candidate>
    decreases |rs|
  {
    if rs == [] then Ok(c0)
    else
      match Fold(lib, c0, rs[..|rs| - 1])
      case Err(e) => Err(e)
      case Ok(c) => Consider(lib, c, rs[|rs| - 1])
  }

  /** Once the loop has raised, the rest of the answers do not matter. */
  lemma {:induction false} FoldErrPersists(lib: Library, c0: Candidate, rs: seq<Response>, n: nat)
    requires n <= |rs|
    requires Fold(lib, c0, rs[..n]).Err?
    ensures Fold(lib, c0, rs) == Fold(lib, c0, rs[..n])
    decreases |rs|
  {
    if n < |rs| {
      var front := rs[..|rs| - 1];
      assert front[..n] == rs[..n];
      FoldErrPersists(lib, c0, front, n);
    } else {
      assert rs[..n] == rs;
    }
  }

  /**
   What the fold can end with: the starting candidate, or the answer of a peer
   whose chain validates, whose reported length beats the starting length, and
   which is the first peer to report that winning length. No acceptable peer
   reports more than the final `max_length`.
   */
  lemma {:induction false} FoldOutcome(lib: Library, c0: Candidate, rs: seq<Response>)
    requires Fold(lib, c0, rs).Ok?
    ensures var c := Fold(lib, c0, rs).value;
      && c.maxLength >= c0.maxLength
      && (c == c0 ||
          exists k :: 0 <= k < |rs| && Acceptable(lib, rs[k])
            && rs[k].length == c.maxLength > c0.maxLength && rs[k].chain == c.chain
            && forall j :: 0 <= j < k && Acceptable(lib, rs[j]) ==> rs[j].length < c.maxLength)
      && forall k :: 0 <= k < |rs| && Acceptable(lib, rs[k]) ==> rs[k].length <= c.maxLength
    decreases |rs|
  {
    if rs != [] {
      var n := |rs| - 1;
      var front := rs[..n];
      FoldOutcome(lib, c0, front);
      var p := Fold(lib, c0, front).value;
      var c := Fold(lib, c0, rs).value;
      assert forall k :: 0 <= k < n ==> rs[k] == front[k];
      if c != p {
        assert Acceptable(lib, rs[n]) && rs[n].length == c.maxLength > p.maxLength && rs[n].chain == c.chain;
      } else if c != c0 {
        var k :| 0 <= k < n && Acceptable(lib, front[k])
          && front[k].length == c.maxLength > c0.maxLength && front[k].chain == c.chain
          && forall j :: 0 <= j < k && Acceptable(lib, front[j]) ==> front[j].length < c.maxLength;
        assert rs[k] == front[k];
      }
    }
  }

  /** The local chain stays when no answer reports a length above the local one, however the answers validate. */
  lemma {:induction false} FoldKeepsWhenNoLonger(lib: Library, c0: Candidate, rs: seq<Response>)
    requires forall k :: 0 <= k < |rs| && rs[k].Answer? ==> rs[k].length <= c0.maxLength
    ensures Fold(lib, c0, rs) == Ok(c0)
    decreases |rs|
  {
    if rs != [] {
      var front := rs[..|rs| - 1];
      assert forall k :: 0 <= k < |front| ==> front[k] == rs[k];
      FoldKeepsWhenNoLonger(lib, c0, front);
    }
  }

  /**
   Local length 2; a peer reports 3 with a valid chain, the next reports 5
   with an invalid one: the first is adopted.
   */
  lemma ScenarioLongerValidWins(lib: Library, local: seq<Block>, c1: seq<Block>, c2: seq<Block>)
    requires |local| == 2
    requires 0 < |c1| && ValidLinks(lib, c1)
    requires 0 < |c2| && !ValidLinks(lib, c2)
    ensures Fold(lib, Initial(local), [Answer(3, c1), Answer(5, c2)]) == Ok(Candidate(3, c1))
  {
    var rs := [Answer(3, c1), Answer(5, c2)];
    assert rs[..1] == [Answer(3, c1)];
    assert rs[..1][..0] == [];
    assert Fold(lib, Initial(local), rs[..1]) == Ok(Candidate(3, c1));
  }

  /**
   The as-written rule trusts the reported length: a peer reporting one more
   than the local length with a single-block chain replaces a longer local chain.
   */
  lemma InflatedLengthShortensChain(lib: Library, local: seq<Block>, g: Block)
    requires |local| >= 2
    ensures Fold(lib, Initial(local), [Answer(|local| + 1, [g])]) == Ok(Candidate(|local| + 1, [g]))
    ensures |[g]| < |local|
  {
  }

  /** The corrected reading: each answer's length is that of the chain it carries. */
  function Honest(rs: seq<Response>): (hs: seq<Response>)
    ensures |hs| == |rs|
    ensures forall k :: 0 <= k < |rs| ==>
      hs[k] == (if rs[k].Answer? then Answer(|rs[k].chain|, rs[k].chain) else Unavailable)
    decreases |rs|
  {
    if rs == [] then []
    else
      var r := rs[|rs| - 1];
      Honest(rs[..|rs| - 1]) + [if r.Answer? then Answer(|r.chain|, r.chain) else Unavailable]
  }

  /**
   With lengths taken from the chains themselves, the fold never raises, its
   `max_length` is the length of its chain, and the chain is either the local
   one or strictly longer.
   */
  lemma {:induction false} HonestFoldNeverShortens(lib: Library, local: seq<Block>, rs: seq<Response>)
    requires 0 < |local|
    ensures Fold(lib, Initial(local), Honest(rs)).Ok?
    ensures var c := Fold(lib, Initial(local), Honest(rs)).value;
      c.maxLength == |c.chain| && (c == Initial(local) || |c.chain| > |local|)
    decreases |rs|
  {
    if rs != [] {
      var n := |rs| - 1;
      var hs := Honest(rs);
      HonestFoldNeverShortens(lib, local, rs[..n]);
      assert hs[..n] == Honest(rs[..n]);
    }
  }

  /**
   With lengths taken from the chains themselves, the fold ends above the local
   length exactly when some 200 answer carries a valid chain longer than the local one.
   */
  lemma HonestFoldReplaces(lib: Library, local: seq<Block>, rs: seq<Response>)
    requires 0 < |local|
    ensures Fold(lib, Initial(local), Honest(rs)).Ok?
    ensures Fold(lib, Initial(local), Honest(rs)).value.maxLength > |local| <==>
      exists k :: 0 <= k < |rs| && Acceptable(lib, rs[k]) && |rs[k].chain| > |local|
  {
    var hs := Honest(rs);
    HonestFoldNeverShortens(lib, local, rs);
    FoldOutcome(lib, Initial(local), hs);
    var c := Fold(lib, Initial(local), hs).value;
    assert forall k :: 0 <= k < |rs| ==> (Acceptable(lib, hs[k]) <==> Acceptable(lib, rs[k]));
    if c.maxLength > |local| {
      var k :| 0 <= k < |hs| && Acceptable(lib, hs[k]) && hs[k].length == c.maxLength;
      assert Acceptable(lib, rs[k]) && |rs[k].chain| > |local|;
    }
  }
}
