/**
 Block hashing and the proof-of-work puzzle check. SHA-256, the sorted-key JSON
 encoding of a block and URL parsing are library calls the model does not
 open: they are the function-valued fields of `Library`, with no properties
 assumed about them.
 */
module Hashing {
  import opened Blocks

  /**
   The foreign functions the ledger calls: `hashlib.sha256(s.encode()).hexdigest()`,
   `json.dumps(block, sort_keys=True)` and `urlparse(address).netloc`.
   */
  datatype Library = Library(
    sha256Hex: string -> string,
    canonicalJson: Block -> string,
    netloc: string -> string)

  /** `Blockchain.hash`: the hex digest of the block's canonical JSON encoding. */
  function BlockHash(lib: Library, b: Block): string
  {
    lib.sha256Hex(lib.canonicalJson(b))
  }

  /** The character of one decimal digit. */
  function DigitChar(d: nat): (c: char)
    requires d < 10
    ensures '0' <= c <= '9'
    ensures c as int - '0' as int == d
  {
    ('0' as int + d) as char
  }

  /** Python's `str(n)` for a non-negative integer: most significant digit first, no leading zeros. */
  function NatDecimal(n: nat): (s: string)
    ensures 0 < |s|
    ensures forall k :: 0 <= k < |s| ==> '0' <= s[k] <= '9'
    ensures |s| > 1 ==> s[0] != '0'
    decreases n
  {
    if n < 10 then [DigitChar(n)] else NatDecimal(n / 10) + [DigitChar(n % 10)]
  }

  /** Reads a string of decimal digits back as a number (Python's `int(s)` on digits). */
  function ParseDecimal(s: string): (n: nat)
    requires forall k :: 0 <= k < |s| ==> '0' <= s[k] <= '9'
    decreases |s|
  {
    if s == [] then 0
    else ParseDecimal(s[..|s| - 1]) * 10 + (s[|s| - 1] as int - '0' as int)
  }

  /** Rendering a number and reading it back gives the number: `int(str(n)) == n`. */
  lemma {:induction false} ParseNatDecimal(n: nat)
    ensures ParseDecimal(NatDecimal(n)) == n
  {
    var s := NatDecimal(n);
    if n >= 10 {
      ParseNatDecimal(n / 10);
      assert s[..|s| - 1] == NatDecimal(n / 10);
      assert s[|s| - 1] == DigitChar(n % 10);
    }
  }

  /** Python's `str(n)` for any integer: a minus sign before the digits of a negative one. */
  function Decimal(n: int): string
  {
    if n < 0 then "-" + NatDecimal(-n) else NatDecimal(n)
  }

  /** The string `valid_proof` hashes: `f'{last_proof}{proof}'`, the two numbers side by side. */
  function ProofGuess(lastProof: int, proof: int): string
  {
    Decimal(lastProof) + Decimal(proof)
  }

  /** `valid_proof`: the first four hex characters of the guess's digest are all `'0'`. */
  predicate ValidProof(lib: Library, lastProof: int, proof: int)
  {
    var h := lib.sha256Hex(ProofGuess(lastProof, proof));
    |h| >= 4 && h[..4] == "0000"
  }

  /** Ten to the power `n`. */
  function Pow10(n: nat): (p: nat)
    ensures 0 < p
  {
    if n == 0 then 1 else Pow10(n - 1) * 10
  }

  /** The arithmetic of appending one digit to a shifted sum. */
  lemma ShiftStep(x: int, p: int, y: int, d: int)
    ensures (x * p + y) * 10 + d == x * (p * 10) + (y * 10 + d)
  {
  }

  /** Reading two digit strings written side by side: the first is shifted by the length of the second. */
  lemma {:induction false} ParseConcat(a: string, b: string)
    requires forall k :: 0 <= k < |a| ==> '0' <= a[k] <= '9'
    requires forall k :: 0 <= k < |b| ==> '0' <= b[k] <= '9'
    ensures forall k :: 0 <= k < |a + b| ==> '0' <= (a + b)[k] <= '9'
    ensures ParseDecimal(a + b) == ParseDecimal(a) * Pow10(|b|) + ParseDecimal(b)
    decreases |b|
  {
    if b == [] {
      assert a + b == a;
    } else {
      var front := b[..|b| - 1];
      ParseConcat(a, front);
      assert (a + b)[..|a + b| - 1] == a + front;
      assert (a + b)[|a + b| - 1] == b[|b| - 1];
      ShiftStep(ParseDecimal(a), Pow10(|front|), ParseDecimal(front), b[|b| - 1] as int - '0' as int);
    }
  }

  /**
   For non-negative numbers the string `valid_proof` hashes reads as the number
   whose decimal digits are those of `lastProof` followed by those of `proof`.
   Pairs that split the same digits at different places, such as (1, 23) and
   (12, 3), give the same string.
   */
  lemma ProofGuessReadsAsShiftedSum(lastProof: nat, proof: nat)
    ensures forall k :: 0 <= k < |ProofGuess(lastProof, proof)| ==> '0' <= ProofGuess(lastProof, proof)[k] <= '9'
    ensures ParseDecimal(ProofGuess(lastProof, proof)) ==
      lastProof * Pow10(|NatDecimal(proof)|) + proof
  {
    ParseConcat(NatDecimal(lastProof), NatDecimal(proof));
    ParseNatDecimal(lastProof);
    ParseNatDecimal(proof);
  }

  /**
   The guess has no separator, so different pairs can share it: whatever the
   digest function, `valid_proof(1, 23)` and `valid_proof(12, 3)` agree.
   */
  lemma GuessIsAmbiguous(lib: Library)
    ensures ProofGuess(1, 23) == ProofGuess(12, 3) == "123"
    ensures ValidProof(lib, 1, 23) == ValidProof(lib, 12, 3)
  {
  }
}
