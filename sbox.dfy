/** The 4-bit S-box of the cipher and its inverse. */
module SBox {

  /** The substitution table, indexed by a nibble. */
  const SBOX: seq<bv4> := [0xC, 0x5, 0x6, 0xB, 0x9, 0x0, 0xA, 0xD, 0x3, 0xE, 0xF, 0x8, 0x4, 0x7, 0x1, 0x2]

  /** The inverse table, as the class body computes it. */
  const INV_SBOX: seq<bv4> := [0x5, 0xE, 0xF, 0x8, 0xC, 0x1, 0x2, 0xD, 0xB, 0x4, 0x6, 0x3, 0x0, 0x7, 0x9, 0xA]

  /** The two tables undo each other in both orders. */
  lemma InvSBoxOfSBox(x: bv4)
    ensures INV_SBOX[SBOX[x]] == x
  {
  }

  lemma SBoxOfInvSBox(y: bv4)
    ensures SBOX[INV_SBOX[y]] == y
  {
  }

  /** SBOX is a permutation of the 16 nibbles: no two inputs share an output
      and every nibble is an output; and so is INV_SBOX. */
  lemma SBoxIsPermutation(x: bv4, y: bv4)
    ensures SBOX[x] == SBOX[y] <==> x == y
    ensures exists z: bv4 :: SBOX[z] == y
  {
    InvSBoxOfSBox(x);
    InvSBoxOfSBox(y);
    SBoxOfInvSBox(y);
    assert SBOX[INV_SBOX[y]] == y;
  }

  lemma InvSBoxIsPermutation(x: bv4, y: bv4)
    ensures INV_SBOX[x] == INV_SBOX[y] <==> x == y
    ensures exists z: bv4 :: INV_SBOX[z] == y
  {
    SBoxOfInvSBox(x);
    SBoxOfInvSBox(y);
    InvSBoxOfSBox(y);
    assert INV_SBOX[SBOX[y]] == y;
  }

  /** A 16-entry nibble table that maps no two nibbles to the same value. */
  ghost predicate Injective(table: seq<bv4>)
    requires |table| == 16
  {
    forall x: bv4, y: bv4 :: table[x] == table[y] ==> x == y
  }

  /** The class-body loop that fills an inverse table: start from sixteen zeros
      and store i at position table[i], for i from 0 to 15. */
  method InvertTable(table: seq<bv4>) returns (inv: seq<bv4>)
    requires |table| == 16 && Injective(table)
    ensures |inv| == 16
    ensures forall x: bv4 :: inv[table[x]] == x
  {
    inv := [0, 0, 0, 0, 0, 0, 0, 0, 0, 0, 0, 0, 0, 0, 0, 0];
    for i := 0 to 16
      invariant |inv| == 16
      invariant forall k: bv4 :: k as int < i ==> inv[table[k]] == k
    {
      var v := i as bv4;
      assert forall k: bv4 :: k as int < i ==> table[k] != table[v];
      inv := inv[table[v] := v];
    }
  }

  /** The table the class body computes from SBOX is INV_SBOX. */
  method BuildInvSBox() returns (inv: seq<bv4>)
    ensures inv == INV_SBOX
  {
    forall x: bv4, y: bv4 | SBOX[x] == SBOX[y] ensures x == y {
      SBoxIsPermutation(x, y);
    }
    inv := InvertTable(SBOX);
    forall k | 0 <= k < 16 ensures inv[k] == INV_SBOX[k] {
      var y := k as bv4;
      SBoxOfInvSBox(y);
      assert inv[SBOX[INV_SBOX[y]]] == INV_SBOX[y];
    }
  }
}
