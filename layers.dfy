/** The two layers of a round: the nibble substitution and the byte-wise
    bit rotation, each with its inverse. */
module Layers {
  import opened State
  import opened SBox

  // ---------------------------------------------------------------------
  // Substitution

  /** Both nibbles of a byte looked up in a 16-entry table. */
  function SubstituteByte(table: seq<bv4>, b: bv8): bv8
    requires |table| == 16
  {
    Place(table[High(b)], true) | Place(table[Low(b)], false)
  }

  lemma HalfOfSubstituteByte(table: seq<bv4>, b: bv8, odd: bool)
    requires |table| == 16
    ensures Half(SubstituteByte(table, b), odd) == table[Half(b, odd)]
  {
  }

  /** Every nibble of the state looked up in a 16-entry table. */
  function SubstituteWith(table: seq<bv4>, s: State): State
    requires |table| == 16
  {
    seq(16, k requires 0 <= k < 16 => SubstituteByte(table, s[k]))
  }

  /** The substitution layer and its inverse. */
  function Substitute(s: State): State { SubstituteWith(SBOX, s) }

  function InvSubstitute(s: State): State { SubstituteWith(INV_SBOX, s) }

  /** The substitution acts on each of the 32 nibbles on its own. */
  lemma NibbleOfSubstituteWith(table: seq<bv4>, s: State, i: nat)
    requires |table| == 16 && i < 32
    ensures Nibble(SubstituteWith(table, s), i) == table[Nibble(s, i)]
  {
    HalfOfSubstituteByte(table, ByteAt(s, i / 2), i % 2 == 1);
  }

  lemma NibbleOfSubstitute(s: State, i: nat)
    requires i < 32
    ensures Nibble(Substitute(s), i) == SBOX[Nibble(s, i)]
    ensures Nibble(InvSubstitute(s), i) == INV_SBOX[Nibble(s, i)]
  {
    NibbleOfSubstituteWith(SBOX, s, i);
    NibbleOfSubstituteWith(INV_SBOX, s, i);
  }

  /** The inverse substitution undoes the substitution, and the other way round. */
  lemma InvSubstituteOfSubstitute(s: State)
    ensures InvSubstitute(Substitute(s)) == s
  {
    forall j | 0 <= j < 32 ensures Nibble(InvSubstitute(Substitute(s)), j) == Nibble(s, j) {
      NibbleOfSubstitute(s, j);
      NibbleOfSubstitute(Substitute(s), j);
      InvSBoxOfSBox(Nibble(s, j));
    }
    NibbleExtensionality(InvSubstitute(Substitute(s)), s);
  }

  lemma SubstituteOfInvSubstitute(s: State)
    ensures Substitute(InvSubstitute(s)) == s
  {
    forall j | 0 <= j < 32 ensures Nibble(Substitute(InvSubstitute(s)), j) == Nibble(s, j) {
      NibbleOfSubstitute(s, j);
      NibbleOfSubstitute(InvSubstitute(s), j);
      SBoxOfInvSBox(Nibble(s, j));
    }
    NibbleExtensionality(Substitute(InvSubstitute(s)), s);
  }

  // ---------------------------------------------------------------------
  // Permutation

  /** The rotation amount of byte p, `(p * 3) % 8`. */
  function Shift(p: nat): (n: bv8)
    ensures n < 8
  {
    ((p * 3) % 8) as bv8
  }

  /** `((b << n) | (b >> (8 - n))) & 0xFF`: b rotated left by n bits. */
  function RotateByteLeft(b: bv8, n: bv8): bv8
    requires n < 8
  {
    (b << n) | (b >> (8 - n))
  }

  /** `((b >> n) | (b << (8 - n))) & 0xFF`: b rotated right by n bits. */
  function RotateByteRight(b: bv8, n: bv8): bv8
    requires n < 8
  {
    (b >> n) | (b << (8 - n))
  }

  /** The two rotations undo each other, and they are Dafny's own rotations. */
  lemma RotateByteInverse(b: bv8, n: bv8)
    requires n < 8
    ensures RotateByteRight(RotateByteLeft(b, n), n) == b
    ensures RotateByteLeft(RotateByteRight(b, n), n) == b
  {
  }

  lemma RotateByteIsRotation(b: bv8, n: bv8)
    requires n < 8
    ensures RotateByteLeft(b, n) == b.RotateLeft(n as nat) && RotateByteRight(b, n) == b.RotateRight(n as nat)
  {
  }

  /** The permutation layer and its inverse: byte p rotated by Shift(p). */
  function Permute(s: State): State
  {
    seq(16, k requires 0 <= k < 16 => RotateByteLeft(s[k], Shift(15 - k)))
  }

  function InvPermute(s: State): State
  {
    seq(16, k requires 0 <= k < 16 => RotateByteRight(s[k], Shift(15 - k)))
  }

  /** No bit leaves its byte: byte p of the result is byte p of the input rotated. */
  lemma ByteOfPermute(s: State, p: nat)
    requires p < 16
    ensures ByteAt(Permute(s), p) == RotateByteLeft(ByteAt(s, p), Shift(p))
    ensures ByteAt(InvPermute(s), p) == RotateByteRight(ByteAt(s, p), Shift(p))
  {
  }

  /** Bytes 0 and 8 have rotation amount 0 and pass unchanged; every other byte
      is rotated by a nonzero amount. */
  lemma PermuteFixedBytes(s: State, p: nat)
    requires p < 16
    ensures Shift(p) == 0 <==> p == 0 || p == 8
    ensures p == 0 || p == 8 ==> ByteAt(Permute(s), p) == ByteAt(s, p)
  {
  }

  lemma InvPermuteOfPermute(s: State)
    ensures InvPermute(Permute(s)) == s
  {
    forall k | 0 <= k < 16 ensures InvPermute(Permute(s))[k] == s[k] {
      RotateByteInverse(s[k], Shift(15 - k));
    }
  }

  lemma PermuteOfInvPermute(s: State)
    ensures Permute(InvPermute(s)) == s
  {
    forall k | 0 <= k < 16 ensures Permute(InvPermute(s))[k] == s[k] {
      RotateByteInverse(s[k], Shift(15 - k));
    }
  }
}
