/** Messages of any length: padding, block-by-block (ECB) encryption, and the
    decryption that strips the padding again. */
module Messages {
  import opened State
  import opened Rounds
  import opened Errors

  /** `16 - (len % 16)`; the code's `if pad_len == 0: pad_len = 16` never fires,
      because the subtraction is never 0. */
  function PadLength(n: nat): (p: int)
    ensures 1 <= p <= 16 && (n + p) % 16 == 0
    ensures p == 16 - n % 16
  {
    var p := 16 - n % 16;
    if p == 0 then 16 else p
  }

  /** The message followed by PadLength copies of the byte PadLength. */
  function Pad(m: seq<bv8>): seq<bv8>
  {
    var p := PadLength(|m|);
    m + seq(p, _ => p as bv8)
  }

  lemma PadShape(m: seq<bv8>)
    ensures |Pad(m)| == |m| + PadLength(|m|) && |Pad(m)| % 16 == 0
    ensures Pad(m)[..|m|] == m
    ensures forall k :: |m| <= k < |Pad(m)| ==> Pad(m)[k] == PadLength(|m|) as bv8
  {
  }

  /** A block function applied to each 16-byte block of m, in order. */
  function MapBlocks(f: State -> State, m: seq<bv8>): (r: seq<bv8>)
    requires |m| % 16 == 0
    ensures |r| == |m|
    decreases |m|
  {
    if |m| == 0 then []
    else MapBlocks(f, m[..|m| - 16]) + f(m[|m| - 16..])
  }

  /** Block j of the output is f applied to block j of the input. */
  lemma {:induction false} MapBlocksAt(f: State -> State, m: seq<bv8>, j: nat)
    requires |m| % 16 == 0 && 16 * j + 16 <= |m|
    ensures MapBlocks(f, m)[16 * j..16 * j + 16] == f(m[16 * j..16 * j + 16])
    decreases |m|
  {
    var n, lo := |m| - 16, 16 * j;
    var front, last := MapBlocks(f, m[..n]), f(m[n..]);
    assert MapBlocks(f, m) == front + last;
    if lo + 16 <= n {
      MapBlocksAt(f, m[..n], j);
      var block: State := m[lo..lo + 16];
      assert m[..n][lo..lo + 16] == block;
      assert (front + last)[lo..lo + 16] == front[lo..lo + 16];
    } else {
      assert lo == n;
      var block: State := m[lo..lo + 16];
      assert m[n..] == block;
      assert (front + last)[n..n + 16] == last;
    }
  }

  /** A block boundary short of the end of whole blocks leaves room for one more block. */
  lemma NextBlock(i: nat, n: nat)
    requires i % 16 == 0 && n % 16 == 0 && i < n
    ensures i + 16 <= n && (i + 16) % 16 == 0
  {
    assert i == 16 * (i / 16) && n == 16 * (n / 16);
  }

  /** Mapping one more block appends f of that block. */
  lemma MapBlocksSnoc(f: State -> State, m: seq<bv8>, i: nat, done: seq<bv8>, next: State)
    requires i % 16 == 0 && i + 16 <= |m|
    requires done == MapBlocks(f, m[..i]) && next == f(m[i..i + 16])
    ensures MapBlocks(f, m[..i + 16]) == done + next
  {
    assert m[..i + 16][..i] == m[..i];
    assert m[..i + 16][i..] == m[i..i + 16];
  }

  /** Mapping a block function and then its left inverse gives m back. */
  lemma {:induction false} MapBlocksInverse(f: State -> State, g: State -> State, m: seq<bv8>)
    requires |m| % 16 == 0
    requires forall s: State :: g(f(s)) == s
    ensures MapBlocks(g, MapBlocks(f, m)) == m
    decreases |m|
  {
    if |m| > 0 {
      var n := |m| - 16;
      var c := MapBlocks(f, m);
      assert c[..n] == MapBlocks(f, m[..n]);
      assert c[n..] == f(m[n..]);
      MapBlocksInverse(f, g, m[..n]);
      assert m == m[..n] + m[n..];
    }
  }

  /** The block cipher under fixed round keys, as a function on blocks. */
  function Encryptor(keys: seq<State>): State -> State
    requires ValidKeys(keys)
  {
    s => EncryptState(keys, s)
  }

  function Decryptor(keys: seq<State>): State -> State
    requires ValidKeys(keys)
  {
    s => DecryptState(keys, s)
  }

  lemma DecryptorOfEncryptor(keys: seq<State>)
    requires ValidKeys(keys)
    ensures forall s: State :: Decryptor(keys)(Encryptor(keys)(s)) == s
  {
    forall s: State ensures Decryptor(keys)(Encryptor(keys)(s)) == s {
      DecryptStateOfEncryptState(keys, s);
    }
  }

  /** `encrypt`: pad, then encrypt block by block. */
  function EncryptMessage(keys: seq<State>, m: seq<bv8>): seq<bv8>
    requires ValidKeys(keys)
  {
    PadShape(m);
    MapBlocks(Encryptor(keys), Pad(m))
  }

  /** The ciphertext is between 1 and 16 bytes longer than the message, a whole
      number of blocks, and block j is the encryption of block j of the padded
      message. */
  lemma EncryptMessageShape(keys: seq<State>, m: seq<bv8>)
    requires ValidKeys(keys)
    ensures |EncryptMessage(keys, m)| == |m| + (16 - |m| % 16)
    ensures |EncryptMessage(keys, m)| % 16 == 0 && |m| < |EncryptMessage(keys, m)| <= |m| + 16
    ensures forall j :: 0 <= j && 16 * j + 16 <= |EncryptMessage(keys, m)| ==>
      EncryptMessage(keys, m)[16 * j..16 * j + 16] == EncryptState(keys, Pad(m)[16 * j..16 * j + 16])
  {
    PadShape(m);
    forall j | 0 <= j && 16 * j + 16 <= |EncryptMessage(keys, m)|
      ensures EncryptMessage(keys, m)[16 * j..16 * j + 16] == EncryptState(keys, Pad(m)[16 * j..16 * j + 16])
    {
      MapBlocksAt(Encryptor(keys), Pad(m), j);
    }
  }

  /** Python's `s[:stop]`: a negative stop counts from the end, and a stop outside
      the sequence is clamped to it. */
  function PythonPrefix(s: seq<bv8>, stop: int): (r: seq<bv8>)
    ensures |r| <= |s| && r == s[..|r|]
  {
    if stop < 0 then s[..if |s| + stop < 0 then 0 else |s| + stop]
    else s[..if stop > |s| then |s| else stop]
  }

  /** `result[:-k]` drops the last k bytes when 1 <= k <= |s|, and gives nothing
      when k is 0 (because -0 is 0) or longer than s. */
  lemma PythonPrefixOfNegative(s: seq<bv8>, k: nat)
    ensures PythonPrefix(s, -(k as int)) == if k == 0 || k >= |s| then [] else s[..|s| - k]
  {
  }

  /** `pad_len = result[-1]` and `result[:-pad_len]`: the last byte is taken as the
      padding length and nothing about it is checked; an empty result has no
      last byte. */
  function StripPadding(r: seq<bv8>): Result<seq<bv8>>
  {
    if |r| == 0 then Err(IndexOutOfRange)
    else Ok(PythonPrefix(r, -(r[|r| - 1] as int)))
  }

  /** A padding length survives the round trip through its byte. */
  lemma PadByte(p: int)
    requires 1 <= p <= 16
    ensures (p as bv8) as int == p
  {
    if p <= 8 {
      if p <= 4 {
        if p <= 2 { assert p == 1 || p == 2; } else { assert p == 3 || p == 4; }
      } else {
        if p <= 6 { assert p == 5 || p == 6; } else { assert p == 7 || p == 8; }
      }
    } else {
      if p <= 12 {
        if p <= 10 { assert p == 9 || p == 10; } else { assert p == 11 || p == 12; }
      } else {
        if p <= 14 { assert p == 13 || p == 14; } else { assert p == 15 || p == 16; }
      }
    }
  }

  lemma StripPaddingOfPad(m: seq<bv8>)
    ensures StripPadding(Pad(m)) == Ok(m)
  {
    var p, padded := PadLength(|m|), Pad(m);
    PadShape(m);
    assert padded[|padded| - 1] == p as bv8;
    PadByte(p);
    PythonPrefixOfNegative(padded, p);
  }

  /** `decrypt`: refuse a length that is not a multiple of 16, decrypt block by
      block, strip the padding. */
  function DecryptMessage(keys: seq<State>, c: seq<bv8>): Result<seq<bv8>>
    requires ValidKeys(keys)
  {
    if |c| % 16 != 0 then Err(InvalidCiphertextLength)
    else StripPadding(MapBlocks(Decryptor(keys), c))
  }

  /** Decryption gives back every message, the empty one included. */
  lemma DecryptMessageOfEncryptMessage(keys: seq<State>, m: seq<bv8>)
    requires ValidKeys(keys)
    ensures DecryptMessage(keys, EncryptMessage(keys, m)) == Ok(m)
  {
    PadShape(m);
    DecryptorOfEncryptor(keys);
    MapBlocksInverse(Encryptor(keys), Decryptor(keys), Pad(m));
    StripPaddingOfPad(m);
  }

  /** The empty message encrypts to one block of padding and decrypts to itself. */
  lemma EmptyMessage(keys: seq<State>)
    requires ValidKeys(keys)
    ensures |EncryptMessage(keys, [])| == 16
    ensures DecryptMessage(keys, EncryptMessage(keys, [])) == Ok([])
  {
    EncryptMessageShape(keys, []);
    DecryptMessageOfEncryptMessage(keys, []);
  }

  /** Different messages give different ciphertexts. */
  lemma EncryptMessageInjective(keys: seq<State>, m1: seq<bv8>, m2: seq<bv8>)
    requires ValidKeys(keys)
    ensures EncryptMessage(keys, m1) == EncryptMessage(keys, m2) <==> m1 == m2
  {
    DecryptMessageOfEncryptMessage(keys, m1);
    DecryptMessageOfEncryptMessage(keys, m2);
  }

  /** The length is checked before anything is decrypted; an empty ciphertext
      passes that check and fails on the missing last byte; every other
      ciphertext of whole blocks decrypts, whatever its last byte, to a prefix of
      its block-wise decryption. */
  lemma DecryptMessageCases(keys: seq<State>, c: seq<bv8>)
    requires ValidKeys(keys)
    ensures |c| % 16 != 0 ==> DecryptMessage(keys, c) == Err(InvalidCiphertextLength)
    ensures |c| == 0 ==> DecryptMessage(keys, c) == Err(IndexOutOfRange)
    ensures |c| % 16 == 0 && |c| > 0 ==>
      var r := MapBlocks(Decryptor(keys), c);
      var k := r[|r| - 1] as nat;
      DecryptMessage(keys, c) == Ok(if k == 0 || k >= |r| then [] else r[..|r| - k])
  {
    if |c| % 16 == 0 && |c| > 0 {
      var r := MapBlocks(Decryptor(keys), c);
      PythonPrefixOfNegative(r, r[|r| - 1] as nat);
    }
  }
}
