/** The block cipher: an initial key addition and ten substitution-permutation
    rounds, and the decryption that runs them backwards. */
module Rounds {
  import opened State
  import opened Layers
  import opened KeySchedule
  import opened Errors

  /** A full set of round keys. */
  predicate ValidKeys(keys: seq<State>)
  {
    |keys| == ROUNDS + 1
  }

  /** One encryption round: substitute, permute, add the round key. */
  function EncryptRound(s: State, k: State): State
  {
    Xor(Permute(Substitute(s)), k)
  }

  /** One decryption round: remove the round key, undo the permutation, undo the
      substitution. */
  function DecryptRound(s: State, k: State): State
  {
    InvSubstitute(InvPermute(Xor(s, k)))
  }

  lemma DecryptRoundOfEncryptRound(s: State, k: State)
    ensures DecryptRound(EncryptRound(s, k), k) == s
  {
    XorXor(Permute(Substitute(s)), k);
    InvPermuteOfPermute(Substitute(s));
    InvSubstituteOfSubstitute(s);
  }

  lemma EncryptRoundOfDecryptRound(s: State, k: State)
    ensures EncryptRound(DecryptRound(s, k), k) == s
  {
    SubstituteOfInvSubstitute(InvPermute(Xor(s, k)));
    PermuteOfInvPermute(Xor(s, k));
    XorXor(s, k);
  }

  /** The state after the initial key addition and rounds 1 to r. */
  function EncryptUpTo(keys: seq<State>, s: State, r: nat): State
    requires ValidKeys(keys) && r <= ROUNDS
  {
    if r == 0 then Xor(s, keys[0])
    else EncryptRound(EncryptUpTo(keys, s, r - 1), keys[r])
  }

  /** The encryption of one block. */
  function EncryptState(keys: seq<State>, s: State): State
    requires ValidKeys(keys)
  {
    EncryptUpTo(keys, s, ROUNDS)
  }

  /** The state after undoing rounds 10 down to r + 1. */
  function DecryptDownTo(keys: seq<State>, c: State, r: nat): State
    requires ValidKeys(keys) && r <= ROUNDS
    decreases ROUNDS - r
  {
    if r == ROUNDS then c
    else DecryptRound(DecryptDownTo(keys, c, r + 1), keys[r + 1])
  }

  /** The decryption of one block: undo all rounds, then remove round key 0. */
  function DecryptState(keys: seq<State>, c: State): State
    requires ValidKeys(keys)
  {
    Xor(DecryptDownTo(keys, c, 0), keys[0])
  }

  /** Undoing rounds 10 to r + 1 of an encryption gives back the state after round r. */
  lemma {:induction false} DecryptDownToOfEncryptState(keys: seq<State>, s: State, r: nat)
    requires ValidKeys(keys) && r <= ROUNDS
    ensures DecryptDownTo(keys, EncryptState(keys, s), r) == EncryptUpTo(keys, s, r)
    decreases ROUNDS - r
  {
    if r < ROUNDS {
      DecryptDownToOfEncryptState(keys, s, r + 1);
      DecryptRoundOfEncryptRound(EncryptUpTo(keys, s, r), keys[r + 1]);
    }
  }

  /** Decryption undoes encryption under the same round keys. */
  lemma DecryptStateOfEncryptState(keys: seq<State>, s: State)
    requires ValidKeys(keys)
    ensures DecryptState(keys, EncryptState(keys, s)) == s
  {
    DecryptDownToOfEncryptState(keys, s, 0);
    XorXor(s, keys[0]);
  }

  /** Running rounds 1 to r over a decryption gives the state before round r + 1 was undone. */
  lemma {:induction false} EncryptUpToOfDecryptState(keys: seq<State>, c: State, r: nat)
    requires ValidKeys(keys) && r <= ROUNDS
    ensures EncryptUpTo(keys, DecryptState(keys, c), r) == DecryptDownTo(keys, c, r)
  {
    if r == 0 {
      XorXor(DecryptDownTo(keys, c, 0), keys[0]);
    } else {
      EncryptUpToOfDecryptState(keys, c, r - 1);
      EncryptRoundOfDecryptRound(DecryptDownTo(keys, c, r), keys[r]);
    }
  }

  /** Encryption undoes decryption: every block is the encryption of exactly one block. */
  lemma EncryptStateOfDecryptState(keys: seq<State>, c: State)
    requires ValidKeys(keys)
    ensures EncryptState(keys, DecryptState(keys, c)) == c
  {
    EncryptUpToOfDecryptState(keys, c, ROUNDS);
  }

  lemma EncryptStateInjective(keys: seq<State>, a: State, b: State)
    requires ValidKeys(keys)
    ensures EncryptState(keys, a) == EncryptState(keys, b) <==> a == b
  {
    DecryptStateOfEncryptState(keys, a);
    DecryptStateOfEncryptState(keys, b);
  }

  /** `encrypt_block` and `decrypt_block`: a block other than 16 bytes long is refused. */
  function EncryptBlock(keys: seq<State>, block: seq<bv8>): Result<seq<bv8>>
    requires ValidKeys(keys)
  {
    if |block| != 16 then Err(InvalidBlockLength) else Ok(EncryptState(keys, block))
  }

  function DecryptBlock(keys: seq<State>, block: seq<bv8>): Result<seq<bv8>>
    requires ValidKeys(keys)
  {
    if |block| != 16 then Err(InvalidBlockLength) else Ok(DecryptState(keys, block))
  }

  /** Both succeed exactly on 16-byte blocks, give 16 bytes, and undo each other. */
  lemma BlockContract(keys: seq<State>, block: seq<bv8>)
    requires ValidKeys(keys)
    ensures EncryptBlock(keys, block).Ok? <==> |block| == 16
    ensures DecryptBlock(keys, block).Ok? <==> |block| == 16
    ensures EncryptBlock(keys, block).Err? ==> EncryptBlock(keys, block).error == InvalidBlockLength
    ensures DecryptBlock(keys, block).Err? ==> DecryptBlock(keys, block).error == InvalidBlockLength
    ensures EncryptBlock(keys, block).Ok? ==> |EncryptBlock(keys, block).value| == 16
    ensures DecryptBlock(keys, block).Ok? ==> |DecryptBlock(keys, block).value| == 16
  {
  }

  lemma BlockRoundTrip(keys: seq<State>, block: seq<bv8>)
    requires ValidKeys(keys) && |block| == 16
    ensures DecryptBlock(keys, EncryptBlock(keys, block).value) == Ok(block)
    ensures EncryptBlock(keys, DecryptBlock(keys, block).value) == Ok(block)
  {
    DecryptStateOfEncryptState(keys, block);
    EncryptStateOfDecryptState(keys, block);
  }
}
