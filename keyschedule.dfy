/** The key schedule: eleven round keys derived from the 16-byte master key. */
module KeySchedule {
  import opened State
  import opened Word

  /** Number of rounds; the schedule has one key more. */
  const ROUNDS: nat := 10

  /** Round key i: the master key for i = 0; otherwise round key i - 1 rotated
      left by 13 bits with the round counter i xor-ed into the top byte. */
  function RoundKey(master: State, i: nat): State
    requires i <= ROUNDS
  {
    if i == 0 then master
    else AddRoundConstant(RotateLeft13(RoundKey(master, i - 1)), i as bv8)
  }

  /** The eleven round keys. */
  function Schedule(master: State): seq<State>
  {
    seq(ROUNDS + 1, i requires 0 <= i <= ROUNDS => RoundKey(master, i))
  }

  /** The schedule holds eleven keys, starts with the master key and each later
      key follows from the one before. */
  lemma ScheduleShape(master: State)
    ensures |Schedule(master)| == ROUNDS + 1
    ensures Schedule(master)[0] == master
    ensures forall i :: 1 <= i <= ROUNDS ==>
      Schedule(master)[i] == AddRoundConstant(RotateLeft13(Schedule(master)[i - 1]), i as bv8)
  {
  }

  /** Appending the next round key to the first i + 1 keys gives the first i + 2. */
  lemma ScheduleSnoc(master: State, i: nat, keys: seq<State>, next: State)
    requires i < ROUNDS && keys == Schedule(master)[..i + 1]
    requires next == AddRoundConstant(RotateLeft13(keys[i]), (i + 1) as bv8)
    ensures keys + [next] == Schedule(master)[..i + 2]
  {
    var all := Schedule(master);
    assert keys[i] == all[i] == RoundKey(master, i);
    assert next == all[i + 1];
    assert all[..i + 2] == all[..i + 1] + [all[i + 1]];
  }

  /** The step of the schedule on the 128-bit integer, as the code writes it:
      `((temp << 13) | (temp >> (128-13))) & ((1 << 128) - 1)`, then
      `temp ^= (i + 1) << 120` for the next counter c = i + 1. */
  function WordStep(temp: bv128, c: bv8): bv128
  {
    (((temp << 13) | (temp >> 115)) & 0xFFFF_FFFF_FFFF_FFFF_FFFF_FFFF_FFFF_FFFF) ^ ((c as bv128) << 120)
  }

  /** On the bytes, one integer step is the rotation followed by the round constant. */
  lemma WordStepOnBytes(w: bv128, c: bv8)
    ensures FromWord(WordStep(w, c)) == AddRoundConstant(RotateLeft13(FromWord(w)), c)
  {
    RotateLeft13OfWord(w);
    AddRoundConstantOfWord(((w << 13) | (w >> 115)) & 0xFFFF_FFFF_FFFF_FFFF_FFFF_FFFF_FFFF_FFFF, c);
  }

  /** Read as integers, the round keys follow the recurrence of the code. */
  lemma ScheduleIsWordRecurrence(master: State, i: nat)
    requires 1 <= i <= ROUNDS
    ensures ToWord(RoundKey(master, i)) == WordStep(ToWord(RoundKey(master, i - 1)), i as bv8)
  {
    var w := ToWord(RoundKey(master, i - 1));
    FromWordOfToWord(RoundKey(master, i - 1));
    WordStepOnBytes(w, i as bv8);
    ToWordOfFromWord(WordStep(w, i as bv8));
  }
}
