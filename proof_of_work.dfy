/** The stand-alone proof-of-work helper (core/proof_of_work.py). */
module ProofOfWork {
  import opened Common
  import opened Blocks

  /** `validate_proof(block, d)`: the stored hash meets the target and is the
      hash of the block's other fields. */
  predicate ValidateProof(H: Digest, b: Block, d: nat): (ok: bool)
    ensures ok <==> b.hash[..Min(d, |b.hash|)] == Zeros(d) && b.hash == CalculateHash(H, b)
  {
    MeetsTargetIsSliceTest(b.hash, d);
    MeetsTarget(b.hash, d) && b.hash == CalculateHash(H, b)
  }

  /** A fresh block that `mine_block` has to work on passes validation afterwards,
      and so does one whose stored hash was right and already met the target. */
  lemma MinedBlockValidates(H: Digest, b: Block, m: Block, d: nat)
    requires b.hash == CalculateHash(H, b)
    requires m == b.(nonce := m.nonce, hash := m.hash) && MeetsTarget(m.hash, d)
    requires m.nonce == b.nonce ==> m == b
    requires m.nonce != b.nonce ==> m.hash == HashWithNonce(H, b, m.nonce)
    ensures ValidateProof(H, m, d)
  {
    if m.nonce != b.nonce {
      assert m.Fields() == b.Fields().(nonce := m.nonce);
    }
  }

  /** Validation rejects a block whose stored hash was altered to anything but
      its recomputed hash, whatever the altered value looks like. */
  lemma TamperedHashFails(H: Digest, b: Block, h: string, d: nat)
    requires h != CalculateHash(H, b)
    ensures !ValidateProof(H, b.(hash := h), d)
  {
    HashIgnoresStoredHash(H, b, h);
  }

  /** `ProofOfWork.mine`: tries nonces 0, 1, 2, ... writing each into the block
      and stops at the first whose hash meets the target. It returns that hash
      and nonce with the block whose nonce was overwritten; the block's stored
      hash is not updated. The elapsed time is not modelled. */
  method Mine(H: Digest, block: Block, d: nat) returns (hash: string, nonce: nat, mined: Block)
    requires exists n: nat :: MeetsTarget(HashWithNonce(H, block, n), d)
    ensures mined == block.(nonce := nonce)
    ensures hash == CalculateHash(H, mined) && MeetsTarget(hash, d)
    ensures forall n: nat :: n < nonce ==> !MeetsTarget(HashWithNonce(H, block, n), d)
    ensures ValidateProof(H, mined.(hash := hash), d)
  {
    ghost var bound: nat :| MeetsTarget(HashWithNonce(H, block, bound), d);
    nonce := 0;
    mined := block.(nonce := nonce);
    hash := CalculateHash(H, mined);
    while !MeetsTarget(hash, d)
      invariant nonce <= bound
      invariant mined == block.(nonce := nonce) && hash == CalculateHash(H, mined)
      invariant forall n: nat :: n < nonce ==> !MeetsTarget(HashWithNonce(H, block, n), d)
      decreases bound - nonce
    {
      nonce := nonce + 1;
      mined := block.(nonce := nonce);
      hash := CalculateHash(H, mined);
    }
    HashIgnoresStoredHash(H, mined, hash);
  }
}
