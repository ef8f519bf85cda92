/** The bridge between a state and the 128-bit integer the code computes with.

    FromWord(w) is `w.to_bytes(16, 'big')` and ToWord(s) is
    `int.from_bytes(s, 'big')` for a 16-byte s, on integers below 2^128.  The
    lemmas show that the two are inverse and that the byte-level operations
    of the key schedule compute the integer expressions of the code. */
module Word {
  import opened State

  /** The 16 big-endian bytes of a 128-bit integer. */
  function FromWord(w: bv128): State
  {
    [((w >> 120) & 0xFF) as bv8, ((w >> 112) & 0xFF) as bv8, ((w >> 104) & 0xFF) as bv8, ((w >> 96) & 0xFF) as bv8,
     ((w >> 88) & 0xFF) as bv8, ((w >> 80) & 0xFF) as bv8, ((w >> 72) & 0xFF) as bv8, ((w >> 64) & 0xFF) as bv8,
     ((w >> 56) & 0xFF) as bv8, ((w >> 48) & 0xFF) as bv8, ((w >> 40) & 0xFF) as bv8, ((w >> 32) & 0xFF) as bv8,
     ((w >> 24) & 0xFF) as bv8, ((w >> 16) & 0xFF) as bv8, ((w >> 8) & 0xFF) as bv8, ((w >> 0) & 0xFF) as bv8]
  }

  /** The 128-bit integer whose big-endian bytes are s. */
  function ToWord(s: State): bv128
  {
    ((s[0] as bv128) << 120) | ((s[1] as bv128) << 112) | ((s[2] as bv128) << 104) | ((s[3] as bv128) << 96) |
    ((s[4] as bv128) << 88) | ((s[5] as bv128) << 80) | ((s[6] as bv128) << 72) | ((s[7] as bv128) << 64) |
    ((s[8] as bv128) << 56) | ((s[9] as bv128) << 48) | ((s[10] as bv128) << 40) | ((s[11] as bv128) << 32) |
    ((s[12] as bv128) << 24) | ((s[13] as bv128) << 16) | ((s[14] as bv128) << 8) | (s[15] as bv128)
  }

  /** Every 128-bit integer is represented by exactly one state. */
  lemma ToWordOfFromWord(w: bv128)
    ensures ToWord(FromWord(w)) == w
  {
  }

  lemma FromWordOfToWord(s: State)
    ensures FromWord(ToWord(s)) == s
  {
    BytesOfToWord(s);
  }

  lemma BytesOfToWord(s: State)
    ensures ((ToWord(s) >> 120) & 0xFF) as bv8 == s[0] &&
      ((ToWord(s) >> 112) & 0xFF) as bv8 == s[1] &&
      ((ToWord(s) >> 104) & 0xFF) as bv8 == s[2] &&
      ((ToWord(s) >> 96) & 0xFF) as bv8 == s[3] &&
      ((ToWord(s) >> 88) & 0xFF) as bv8 == s[4] &&
      ((ToWord(s) >> 80) & 0xFF) as bv8 == s[5] &&
      ((ToWord(s) >> 72) & 0xFF) as bv8 == s[6] &&
      ((ToWord(s) >> 64) & 0xFF) as bv8 == s[7] &&
      ((ToWord(s) >> 56) & 0xFF) as bv8 == s[8] &&
      ((ToWord(s) >> 48) & 0xFF) as bv8 == s[9] &&
      ((ToWord(s) >> 40) & 0xFF) as bv8 == s[10] &&
      ((ToWord(s) >> 32) & 0xFF) as bv8 == s[11] &&
      ((ToWord(s) >> 24) & 0xFF) as bv8 == s[12] &&
      ((ToWord(s) >> 16) & 0xFF) as bv8 == s[13] &&
      ((ToWord(s) >> 8) & 0xFF) as bv8 == s[14] &&
      ((ToWord(s) >> 0) & 0xFF) as bv8 == s[15]
  {
  }

  lemma FromWordInjective(a: bv128, b: bv128)
    ensures FromWord(a) == FromWord(b) <==> a == b
  {
    ToWordOfFromWord(a);
    ToWordOfFromWord(b);
  }

  /** The rotation of the key schedule, `((w << 13) | (w >> 115)) & ((1 << 128) - 1)`,
      is RotateLeft13 on the bytes.  In bv128 the left shift already drops the bits
      above 2^128 that the mask clears. */
  lemma RotateLeft13OfWord(w: bv128)
    ensures FromWord(((w << 13) | (w >> 115)) & 0xFFFF_FFFF_FFFF_FFFF_FFFF_FFFF_FFFF_FFFF)
         == RotateLeft13(FromWord(w))
  {
  }

  /** `w ^ (c << 120)` with c below 256 changes the most significant byte only. */
  lemma AddRoundConstantOfWord(w: bv128, c: bv8)
    ensures FromWord(w ^ ((c as bv128) << 120)) == AddRoundConstant(FromWord(w), c)
  {
    var x, y := FromWord(w ^ ((c as bv128) << 120)), AddRoundConstant(FromWord(w), c);
    RoundConstantBytes(w, c);
    assert y[1..] == FromWord(w)[1..];
    HeadTail(x, y);
  }

  /** The constant reaches the top byte only (bit-vector facts, one per byte). */
  lemma RoundConstantBytes(w: bv128, c: bv8)
    ensures (((w ^ ((c as bv128) << 120)) >> 120) & 0xFF) as bv8 == ((w >> 120) & 0xFF) as bv8 ^ c
    ensures
      (((w ^ ((c as bv128) << 120)) >> 112) & 0xFF) == ((w >> 112) & 0xFF) &&
      (((w ^ ((c as bv128) << 120)) >> 104) & 0xFF) == ((w >> 104) & 0xFF) &&
      (((w ^ ((c as bv128) << 120)) >> 96) & 0xFF) == ((w >> 96) & 0xFF) &&
      (((w ^ ((c as bv128) << 120)) >> 88) & 0xFF) == ((w >> 88) & 0xFF) &&
      (((w ^ ((c as bv128) << 120)) >> 80) & 0xFF) == ((w >> 80) & 0xFF) &&
      (((w ^ ((c as bv128) << 120)) >> 72) & 0xFF) == ((w >> 72) & 0xFF) &&
      (((w ^ ((c as bv128) << 120)) >> 64) & 0xFF) == ((w >> 64) & 0xFF) &&
      (((w ^ ((c as bv128) << 120)) >> 56) & 0xFF) == ((w >> 56) & 0xFF) &&
      (((w ^ ((c as bv128) << 120)) >> 48) & 0xFF) == ((w >> 48) & 0xFF) &&
      (((w ^ ((c as bv128) << 120)) >> 40) & 0xFF) == ((w >> 40) & 0xFF) &&
      (((w ^ ((c as bv128) << 120)) >> 32) & 0xFF) == ((w >> 32) & 0xFF) &&
      (((w ^ ((c as bv128) << 120)) >> 24) & 0xFF) == ((w >> 24) & 0xFF) &&
      (((w ^ ((c as bv128) << 120)) >> 16) & 0xFF) == ((w >> 16) & 0xFF) &&
      (((w ^ ((c as bv128) << 120)) >> 8) & 0xFF) == ((w >> 8) & 0xFF) &&
      (((w ^ ((c as bv128) << 120)) >> 0) & 0xFF) == ((w >> 0) & 0xFF)
  {
  }

  lemma HeadTail(x: State, y: State)
    requires x[0] == y[0] && x[1..] == y[1..]
    ensures x == y
  {
    assert x == [x[0]] + x[1..] && y == [y[0]] + y[1..];
  }

  // ---------------------------------------------------------------------
  // Byte and nibble extraction on the integer
  //
  // The index is a bv8, so that the shift amounts `8 * p` and `4 * i` stay
  // bit-vector arithmetic; each group of four bytes is a case split on
  // literal positions.

  lemma ByteOfWord0To3(w: bv128, p: bv8)
    requires 0 <= p < 4
    ensures ByteAt(FromWord(w), p as nat) == ((w >> (8 * p)) & 0xFF) as bv8
  {
    if p == 0 {
      assert 8 * p == 0;
    } else if p == 1 {
      assert 8 * p == 8;
    } else if p == 2 {
      assert 8 * p == 16;
    } else {
      assert 8 * p == 24;
    }
  }

  lemma ByteOfWord4To7(w: bv128, p: bv8)
    requires 4 <= p < 8
    ensures ByteAt(FromWord(w), p as nat) == ((w >> (8 * p)) & 0xFF) as bv8
  {
    if p == 4 {
      assert 8 * p == 32;
    } else if p == 5 {
      assert 8 * p == 40;
    } else if p == 6 {
      assert 8 * p == 48;
    } else {
      assert 8 * p == 56;
    }
  }

  lemma ByteOfWord8To11(w: bv128, p: bv8)
    requires 8 <= p < 12
    ensures ByteAt(FromWord(w), p as nat) == ((w >> (8 * p)) & 0xFF) as bv8
  {
    if p == 8 {
      assert 8 * p == 64;
    } else if p == 9 {
      assert 8 * p == 72;
    } else if p == 10 {
      assert 8 * p == 80;
    } else {
      assert 8 * p == 88;
    }
  }

  lemma ByteOfWord12To15(w: bv128, p: bv8)
    requires 12 <= p < 16
    ensures ByteAt(FromWord(w), p as nat) == ((w >> (8 * p)) & 0xFF) as bv8
  {
    if p == 12 {
      assert 8 * p == 96;
    } else if p == 13 {
      assert 8 * p == 104;
    } else if p == 14 {
      assert 8 * p == 112;
    } else {
      assert 8 * p == 120;
    }
  }

  /** Byte p of the integer, `(w >> (8 * p)) & 0xFF`, is byte p of its image. */
  lemma ByteOfWord(w: bv128, p: bv8)
    requires p < 16
    ensures ByteAt(FromWord(w), p as nat) == ((w >> (8 * p)) & 0xFF) as bv8
  {
    if p < 4 {
      ByteOfWord0To3(w, p);
    } else if p < 8 {
      ByteOfWord4To7(w, p);
    } else if p < 12 {
      ByteOfWord8To11(w, p);
    } else {
      ByteOfWord12To15(w, p);
    }
  }

  /** Nibble i of a 128-bit integer is a half of byte i / 2 (bit-vector facts only). */
  lemma NibbleInByte(w: bv128, i: bv8)
    requires i < 32
    ensures ((w >> (4 * i)) & 0xF) as bv4 == Half(((w >> (8 * (i / 2))) & 0xFF) as bv8, i % 2 == 1)
  {
  }

  /** Halving and parity of a bv8 index agree with those of its value. */
  lemma HalfIndex(i: bv8)
    ensures (i as nat) / 2 == (i / 2) as nat && ((i as nat) % 2 == 1 <==> i % 2 == 1)
  {
  }

  /** Nibble i of the integer, `(w >> (4 * i)) & 0xF`, is nibble i of its image. */
  lemma NibbleOfWord(w: bv128, i: bv8)
    requires i < 32
    ensures Nibble(FromWord(w), i as nat) == ((w >> (4 * i)) & 0xF) as bv4
  {
    ByteOfWord(w, i / 2);
    NibbleInByte(w, i);
    HalfIndex(i);
  }
}
