/** The 128-bit cipher state.

    The cipher treats a block as a big-endian 128-bit unsigned integer.  The
    model keeps that integer as its 16 big-endian bytes: s[0] holds bits
    120..127 and s[15] holds bits 0..7.  Converting a 16-byte block to the
    integer and back (`int.from_bytes(b, 'big')`, `to_bytes(16, 'big')`) is
    therefore the identity on this representation.

    Nibble i of the integer (bits 4i..4i+3, i < 32) and byte p (bits 8p..8p+7,
    p < 16) are addressed as the code addresses them, by their position in the
    integer.  Module Word relates a state to the 128-bit integer itself. */
module State {

  type State = s: seq<bv8> | |s| == 16
    witness [0, 0, 0, 0, 0, 0, 0, 0, 0, 0, 0, 0, 0, 0, 0, 0]

  /** The all-zero state, where the code starts `result = 0`. */
  const Zero: State := [0, 0, 0, 0, 0, 0, 0, 0, 0, 0, 0, 0, 0, 0, 0, 0]

  // ---------------------------------------------------------------------
  // Bytes

  /** Byte p of the integer, `(s >> (8 * p)) & 0xFF`. */
  function ByteAt(s: State, p: nat): bv8
    requires p < 16
  {
    s[15 - p]
  }

  /** The state with `v << (8 * p)` or-ed in, `s | (v << (8 * p))`. */
  function OrByte(s: State, p: nat, v: bv8): (r: State)
    requires p < 16
    ensures ByteAt(r, p) == ByteAt(s, p) | v
    ensures forall q :: 0 <= q < 16 && q != p ==> ByteAt(r, q) == ByteAt(s, q)
  {
    s[15 - p := s[15 - p] | v]
  }

  /** Two states with the same 16 bytes are equal. */
  lemma ByteExtensionality(a: State, b: State)
    requires forall p :: 0 <= p < 16 ==> ByteAt(a, p) == ByteAt(b, p)
    ensures a == b
  {
    forall k | 0 <= k < 16 ensures a[k] == b[k] {
      assert ByteAt(a, 15 - k) == ByteAt(b, 15 - k);
    }
  }

  // ---------------------------------------------------------------------
  // Nibbles

  /** The low and the high nibble of a byte. */
  function Low(b: bv8): bv4 { (b & 0xF) as bv4 }
  function High(b: bv8): bv4 { (b >> 4) as bv4 }

  /** The high nibble of b when odd holds, its low nibble otherwise. */
  function Half(b: bv8, odd: bool): bv4 { if odd then High(b) else Low(b) }

  /** v moved into the high nibble of a byte when odd holds, into the low one otherwise. */
  function Place(v: bv4, odd: bool): (b: bv8)
    ensures Half(b, odd) == v && Half(b, !odd) == 0
  {
    if odd then (v as bv8) << 4 else v as bv8
  }

  /** A byte is determined by its two nibbles. */
  lemma HalvesDetermineByte(a: bv8, b: bv8)
    requires Low(a) == Low(b) && High(a) == High(b)
    ensures a == b
  {
  }

  /** Or-ing a placed nibble into a byte changes that half only. */
  lemma HalfOfOr(b: bv8, v: bv4, odd: bool, odd2: bool)
    ensures Half(b | Place(v, odd), odd2) == if odd == odd2 then Half(b, odd2) | v else Half(b, odd2)
  {
  }

  /** Nibble i of the integer, `(s >> (4 * i)) & 0xF`: the low nibble of byte i / 2
      when i is even, its high nibble when i is odd. */
  function Nibble(s: State, i: nat): bv4
    requires i < 32
  {
    Half(ByteAt(s, i / 2), i % 2 == 1)
  }

  /** The state with `v << (4 * i)` or-ed in, `s | (v << (4 * i))`. */
  function OrNibble(s: State, i: nat, v: bv4): State
    requires i < 32
  {
    OrByte(s, i / 2, Place(v, i % 2 == 1))
  }

  lemma Parity(i: nat, j: nat)
    ensures j == i <==> (j / 2 == i / 2 && j % 2 == i % 2)
  {
  }

  /** Or-ing a nibble in changes that nibble only. */
  lemma NibbleOfOrNibble(s: State, i: nat, v: bv4, j: nat)
    requires i < 32 && j < 32
    ensures Nibble(OrNibble(s, i, v), j) == if j == i then Nibble(s, j) | v else Nibble(s, j)
  {
    Parity(i, j);
    if j / 2 == i / 2 {
      HalfOfOr(ByteAt(s, i / 2), v, i % 2 == 1, j % 2 == 1);
    }
  }

  /** Two states with the same 32 nibbles are equal. */
  lemma NibbleExtensionality(a: State, b: State)
    requires forall j :: 0 <= j < 32 ==> Nibble(a, j) == Nibble(b, j)
    ensures a == b
  {
    forall p | 0 <= p < 16 ensures ByteAt(a, p) == ByteAt(b, p) {
      assert Nibble(a, 2 * p) == Nibble(b, 2 * p);
      assert Nibble(a, 2 * p + 1) == Nibble(b, 2 * p + 1);
      HalvesDetermineByte(ByteAt(a, p), ByteAt(b, p));
    }
    ByteExtensionality(a, b);
  }

  // ---------------------------------------------------------------------
  // Whole-state operations

  /** `a ^ b` on the integers. */
  function Xor(a: State, b: State): State
  {
    seq(16, k requires 0 <= k < 16 => a[k] ^ b[k])
  }

  /** Xor-ing the same state twice cancels. */
  lemma XorXor(a: State, b: State)
    ensures Xor(Xor(a, b), b) == a
  {
    assert forall k :: 0 <= k < 16 ==> (a[k] ^ b[k]) ^ b[k] == a[k];
  }

  /** The 128-bit rotation left by 13 bits: a rotation by one whole byte followed
      by a rotation by 5 bits, so that byte k takes its top three bits from byte
      k + 1 and its low five from byte k + 2 (indices modulo 16). */
  function RotateLeft13(s: State): State
  {
    [(s[1] << 5) | (s[2] >> 3), (s[2] << 5) | (s[3] >> 3),
     (s[3] << 5) | (s[4] >> 3), (s[4] << 5) | (s[5] >> 3),
     (s[5] << 5) | (s[6] >> 3), (s[6] << 5) | (s[7] >> 3),
     (s[7] << 5) | (s[8] >> 3), (s[8] << 5) | (s[9] >> 3),
     (s[9] << 5) | (s[10] >> 3), (s[10] << 5) | (s[11] >> 3),
     (s[11] << 5) | (s[12] >> 3), (s[12] << 5) | (s[13] >> 3),
     (s[13] << 5) | (s[14] >> 3), (s[14] << 5) | (s[15] >> 3),
     (s[15] << 5) | (s[0] >> 3), (s[0] << 5) | (s[1] >> 3)]
  }

  /** `s ^ (c << 120)`: the constant lands in the most significant byte. */
  function AddRoundConstant(s: State, c: bv8): State
  {
    s[0 := s[0] ^ c]
  }
}
