/** The cipher object: it holds the key and its eleven round keys, and its
    methods compute, step by step as the code does, what the functions of the
    other modules specify. */
module Cipher {
  import opened State
  import opened SBox
  import opened Layers
  import opened KeySchedule
  import opened Rounds
  import opened Messages
  import opened Errors

  class LightCrypt {
    const key: seq<bv8>
    const roundKeys: seq<State>

    /** The round keys are the schedule of the 16-byte key. */
    predicate Valid()
    {
      |key| == 16 && roundKeys == Schedule(key)
    }

    /** `__init__` for a key of the right length. */
    constructor (key: seq<bv8>)
      requires |key| == 16
      ensures this.key == key && roundKeys == Schedule(key)
      ensures Valid()
    {
      this.key := key;
      var keys := ExpandKey(key);
      roundKeys := keys;
    }

    /** `__init__` with its check: a key that is not 16 bytes long is refused. */
    static method Create(key: seq<bv8>) returns (r: Result<LightCrypt>)
      ensures r.Ok? <==> |key| == 16
      ensures r.Err? ==> r.error == InvalidKeyLength
      ensures r.Ok? ==> fresh(r.value) && r.value.Valid() && r.value.key == key
    {
      if |key| != 16 {
        return Err(InvalidKeyLength);
      }
      var cipher := new LightCrypt(key);
      return Ok(cipher);
    }

    /** `_expand_key`: the key itself, then ten times rotate the last key and add
        the round counter. */
    static method ExpandKey(key: State) returns (keys: seq<State>)
      ensures keys == Schedule(key)
    {
      keys := [key];
      for i := 0 to ROUNDS
        invariant keys == Schedule(key)[..i + 1]
      {
        var temp := keys[|keys| - 1];
        temp := RotateLeft13(temp);
        temp := AddRoundConstant(temp, (i + 1) as bv8);
        ScheduleSnoc(key, i, keys, temp);
        keys := keys + [temp];
      }
      assert keys == Schedule(key)[..ROUNDS + 1];
    }

    /** The loop shared by `_substitute_bytes` and `_inv_substitute_bytes`: for
        each of the 32 nibbles, look it up and or the result into place. */
    static method SubstituteNibbles(table: seq<bv4>, state: State) returns (result: State)
      requires |table| == 16
      ensures result == SubstituteWith(table, state)
    {
      result := Zero;
      for i := 0 to 32
        invariant forall j :: 0 <= j < 32 ==>
          Nibble(result, j) == if j < i then table[Nibble(state, j)] else 0
      {
        var nibble := Nibble(state, i);
        forall j | 0 <= j < 32
          ensures Nibble(OrNibble(result, i, table[nibble]), j) == if j <= i then table[Nibble(state, j)] else 0
        {
          NibbleOfOrNibble(result, i, table[nibble], j);
        }
        result := OrNibble(result, i, table[nibble]);
      }
      forall j | 0 <= j < 32 ensures Nibble(result, j) == Nibble(SubstituteWith(table, state), j) {
        NibbleOfSubstituteWith(table, state, j);
      }
      NibbleExtensionality(result, SubstituteWith(table, state));
    }

    method SubstituteBytes(state: State) returns (result: State)
      ensures result == Substitute(state)
    {
      result := SubstituteNibbles(SBOX, state);
    }

    method InvSubstituteBytes(state: State) returns (result: State)
      ensures result == InvSubstitute(state)
    {
      result := SubstituteNibbles(INV_SBOX, state);
    }

    /** `_permute_bits`: rotate byte p left by `(p * 3) % 8` and or it into place. */
    method PermuteBits(state: State) returns (result: State)
      ensures result == Permute(state)
    {
      result := Zero;
      for bytePos := 0 to 16
        invariant forall q :: 0 <= q < 16 ==>
          ByteAt(result, q) == if q < bytePos then RotateByteLeft(ByteAt(state, q), Shift(q)) else 0
      {
        var byteVal := ByteAt(state, bytePos);
        var shift := Shift(bytePos);
        var shifted := (byteVal << shift) | (byteVal >> (8 - shift));
        result := OrByte(result, bytePos, shifted);
      }
      forall q | 0 <= q < 16 ensures ByteAt(result, q) == ByteAt(Permute(state), q) {
        ByteOfPermute(state, q);
      }
      ByteExtensionality(result, Permute(state));
    }

    /** `_inv_permute_bits`: rotate byte p right by the same amount. */
    method InvPermuteBits(state: State) returns (result: State)
      ensures result == InvPermute(state)
    {
      result := Zero;
      for bytePos := 0 to 16
        invariant forall q :: 0 <= q < 16 ==>
          ByteAt(result, q) == if q < bytePos then RotateByteRight(ByteAt(state, q), Shift(q)) else 0
      {
        var byteVal := ByteAt(state, bytePos);
        var shift := Shift(bytePos);
        var shifted := (byteVal >> shift) | (byteVal << (8 - shift));
        result := OrByte(result, bytePos, shifted);
      }
      forall q | 0 <= q < 16 ensures ByteAt(result, q) == ByteAt(InvPermute(state), q) {
        ByteOfPermute(state, q);
      }
      ByteExtensionality(result, InvPermute(state));
    }

    /** `encrypt_block`: refuse a block that is not 16 bytes, add round key 0,
        then run rounds 1 to 10. */
    method EncryptBlock(plaintext: seq<bv8>) returns (r: Result<seq<bv8>>)
      requires ValidKeys(roundKeys)
      ensures r == Rounds.EncryptBlock(roundKeys, plaintext)
    {
      if |plaintext| != 16 {
        return Err(InvalidBlockLength);
      }
      var state: State := plaintext;
      state := Xor(state, roundKeys[0]);
      for roundNum := 1 to ROUNDS + 1
        invariant state == EncryptUpTo(roundKeys, plaintext, roundNum - 1)
      {
        state := SubstituteBytes(state);
        state := PermuteBits(state);
        state := Xor(state, roundKeys[roundNum]);
      }
      return Ok(state);
    }

    /** `decrypt_block`: refuse a block that is not 16 bytes, undo rounds 10 down
        to 1, then remove round key 0. */
    method DecryptBlock(ciphertext: seq<bv8>) returns (r: Result<seq<bv8>>)
      requires ValidKeys(roundKeys)
      ensures r == Rounds.DecryptBlock(roundKeys, ciphertext)
    {
      if |ciphertext| != 16 {
        return Err(InvalidBlockLength);
      }
      var state: State := ciphertext;
      var roundNum: nat := ROUNDS;
      while roundNum > 0
        invariant roundNum <= ROUNDS
        invariant state == DecryptDownTo(roundKeys, ciphertext, roundNum)
      {
        state := Xor(state, roundKeys[roundNum]);
        state := InvPermuteBits(state);
        state := InvSubstituteBytes(state);
        roundNum := roundNum - 1;
      }
      assert state == DecryptDownTo(roundKeys, ciphertext, 0);
      state := Xor(state, roundKeys[0]);
      return Ok(state);
    }

    /** `encrypt`: pad, then encrypt each 16-byte block and append it. */
    method Encrypt(plaintext: seq<bv8>) returns (result: seq<bv8>)
      requires Valid()
      ensures result == EncryptMessage(roundKeys, plaintext)
    {
      var padLen := 16 - |plaintext| % 16;
      if padLen == 0 {
        padLen := 16;
      }
      var padded := plaintext + seq(padLen, _ => padLen as bv8);
      assert padded == Pad(plaintext);
      PadShape(plaintext);
      result := EncryptBlocks(padded);
    }

    /** The block loop of `encrypt`: encrypt each block and append it. */
    method EncryptBlocks(padded: seq<bv8>) returns (result: seq<bv8>)
      requires ValidKeys(roundKeys) && |padded| % 16 == 0
      ensures result == MapBlocks(Encryptor(roundKeys), padded)
    {
      result := [];
      var i := 0;
      while i < |padded|
        invariant 0 <= i <= |padded| && i % 16 == 0
        invariant result == MapBlocks(Encryptor(roundKeys), padded[..i])
      {
        NextBlock(i, |padded|);
        var block: State := padded[i..i + 16];
        var encrypted := EncryptBlock(block);
        ghost var f := Encryptor(roundKeys);
        assert encrypted.value == f(block);
        MapBlocksSnoc(f, padded, i, result, encrypted.value);
        result := result + encrypted.value;
        i := i + 16;
      }
      assert padded[..i] == padded;
    }

    /** `decrypt`: refuse a length that is not a multiple of 16, decrypt each
        block, then drop as many trailing bytes as the last byte says. */
    method Decrypt(ciphertext: seq<bv8>) returns (r: Result<seq<bv8>>)
      requires Valid()
      ensures r == DecryptMessage(roundKeys, ciphertext)
    {
      if |ciphertext| % 16 != 0 {
        return Err(InvalidCiphertextLength);
      }
      var result := DecryptBlocks(ciphertext);
      if |result| == 0 {
        return Err(IndexOutOfRange);
      }
      var padLen := result[|result| - 1];
      return Ok(PythonPrefix(result, -(padLen as int)));
    }

    /** The block loop of `decrypt`: decrypt each block and append it. */
    method DecryptBlocks(ciphertext: seq<bv8>) returns (result: seq<bv8>)
      requires ValidKeys(roundKeys) && |ciphertext| % 16 == 0
      ensures result == MapBlocks(Decryptor(roundKeys), ciphertext)
    {
      result := [];
      var i := 0;
      while i < |ciphertext|
        invariant 0 <= i <= |ciphertext| && i % 16 == 0
        invariant result == MapBlocks(Decryptor(roundKeys), ciphertext[..i])
      {
        NextBlock(i, |ciphertext|);
        var block: State := ciphertext[i..i + 16];
        var decrypted := DecryptBlock(block);
        ghost var f := Decryptor(roundKeys);
        assert decrypted.value == f(block);
        MapBlocksSnoc(f, ciphertext, i, result, decrypted.value);
        result := result + decrypted.value;
        i := i + 16;
      }
      assert ciphertext[..i] == ciphertext;
    }
  }
}
