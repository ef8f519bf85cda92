/** `bytes_to_hex`: the upper-case hexadecimal text of a byte string. */
module Hex {
  import opened State

  datatype Option<T> = None | Some(value: T)

  /** An upper-case hexadecimal digit character. */
  predicate IsDigit(c: char)
  {
    '0' <= c <= '9' || 'A' <= c <= 'F'
  }

  /** The digit for a nibble: 0-9, then A-F. */
  function HexDigit(n: bv4): (c: char)
    ensures IsDigit(c)
  {
    if n < 10 then ('0' as int + n as int) as char else ('A' as int + n as int - 10) as char
  }

  /** The value of an upper-case hexadecimal digit; other characters have none. */
  function DigitValue(c: char): (r: Option<bv4>)
    ensures r.Some? <==> IsDigit(c)
  {
    if '0' <= c <= '9' then Some((c as int - '0' as int) as bv4)
    else if 'A' <= c <= 'F' then Some((c as int - 'A' as int + 10) as bv4)
    else None
  }

  /** Two digits per byte, high nibble first (`data.hex().upper()`). */
  function BytesToHex(data: seq<bv8>): (r: string)
    ensures |r| == 2 * |data|
    ensures forall k :: 0 <= k < |r| ==> IsDigit(r[k])
  {
    if |data| == 0 then ""
    else [HexDigit(High(data[0])), HexDigit(Low(data[0]))] + BytesToHex(data[1..])
  }

  /** The reverse reading: pairs of upper-case digits back to bytes. */
  function HexToBytes(s: string): Option<seq<bv8>>
    decreases |s|
  {
    if |s| == 0 then Some([])
    else if |s| == 1 then None
    else
      match (DigitValue(s[0]), DigitValue(s[1]), HexToBytes(s[2..]))
      case (Some(h), Some(l), Some(rest)) => Some([Place(h, true) | Place(l, false)] + rest)
      case _ => None
  }

  /** Digit and value are inverse both ways. */
  lemma DigitValueOfHexDigit(n: bv4)
    ensures DigitValue(HexDigit(n)) == Some(n)
  {
  }

  lemma HexDigitOfDigitValue(c: char)
    requires IsDigit(c)
    ensures HexDigit(DigitValue(c).value) == c
  {
    if '0' <= c <= '9' {
      assert DigitValue(c).value as int == c as int - '0' as int;
    } else {
      assert DigitValue(c).value as int == c as int - 'A' as int + 10;
    }
  }

  lemma JoinHalves(b: bv8)
    ensures Place(High(b), true) | Place(Low(b), false) == b
  {
  }

  /** The hexadecimal text reads back as the bytes it was made from. */
  lemma {:induction false} HexToBytesOfBytesToHex(data: seq<bv8>)
    ensures HexToBytes(BytesToHex(data)) == Some(data)
  {
    if |data| > 0 {
      var b := data[0];
      var s := BytesToHex(data);
      assert s == [HexDigit(High(b)), HexDigit(Low(b))] + BytesToHex(data[1..]);
      assert s[2..] == BytesToHex(data[1..]);
      HexToBytesOfBytesToHex(data[1..]);
      DigitValueOfHexDigit(High(b));
      DigitValueOfHexDigit(Low(b));
      JoinHalves(b);
      assert HexToBytes(s) == Some([b] + data[1..]);
      assert data == [b] + data[1..];
    }
  }
}
