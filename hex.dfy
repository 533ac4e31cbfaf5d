/**
 * Base16 (section 8 of RFC 4648) as the signing library's `bytesToHex` and
 * `hexToBytes` do it: encoding writes lower-case digits, decoding accepts
 * either case and throws on an odd length or on the first pair holding a
 * character that is not a hex digit.
 */
module Hex {
  import opened Common

  type nibble = x: int | 0 <= x < 16

  /** Why `hexToBytes` throws: an odd length, or a non-hex pair at this index. */
  datatype HexError = OddLength(length: nat) | NonHexCharacter(index: nat)

  const LowerDigits: string := "0123456789abcdef"

  /** The value of one hex digit of either case. */
  function DigitValue(c: char): (r: Option<nibble>)
  {
    if '0' <= c <= '9' then Some(c as int - '0' as int)
    else if 'A' <= c <= 'F' then Some(c as int - 'A' as int + 10)
    else if 'a' <= c <= 'f' then Some(c as int - 'a' as int + 10)
    else None
  }

  /** A digit `bytesToHex` can write. */
  predicate IsLowerDigit(c: char)
  {
    '0' <= c <= '9' || 'a' <= c <= 'f'
  }

  predicate IsHexDigit(c: char)
  {
    DigitValue(c).Some?
  }

  /** A hex digit folded to lower case; other characters are left alone. */
  function LowerChar(c: char): (r: char)
  {
    if 'A' <= c <= 'F' then (c as int - 'A' as int + 'a' as int) as char else c
  }

  function Lower(s: string): (r: string)
    ensures |r| == |s|
  {
    seq(|s|, i requires 0 <= i < |s| => LowerChar(s[i]))
  }

  /** `bytesToHex`: two lower-case digits per byte, high nibble first. */
  function Encode(bytes: seq<byte>): (r: string)
    ensures |r| == 2 * |bytes|
    ensures forall i :: 0 <= i < |r| ==> IsLowerDigit(r[i])
  {
    if bytes == [] then []
    else [LowerDigits[bytes[0] / 16], LowerDigits[bytes[0] % 16]] + Encode(bytes[1..])
  }

  /** `hexToBytes`. */
  function Decode(s: string): (r: Result<seq<byte>, HexError>)
    ensures r.Success? <==> |s| % 2 == 0 && forall i :: 0 <= i < |s| ==> IsHexDigit(s[i])
    ensures r.Success? ==> |r.value| == |s| / 2
    ensures r == Failure(OddLength(|s|)) <==> |s| % 2 == 1
  {
    if |s| % 2 == 1 then Failure(OddLength(|s|)) else DecodePairs(s, 0)
  }

  /**
   * Decodes the pairs of `s`, which starts at index `offset` of the whole
   * input; a failure names the first pair that is not two hex digits.
   */
  function DecodePairs(s: string, offset: nat): (r: Result<seq<byte>, HexError>)
    requires |s| % 2 == 0
    ensures r.Success? <==> forall i :: 0 <= i < |s| ==> IsHexDigit(s[i])
    ensures r.Success? ==> |r.value| == |s| / 2
    ensures r.Failure? ==>
              && r.error.NonHexCharacter?
              && offset <= r.error.index
              && var k := r.error.index - offset;
              && k % 2 == 0 && k + 1 < |s|
              && (!IsHexDigit(s[k]) || !IsHexDigit(s[k + 1]))
              && forall i :: 0 <= i < k ==> IsHexDigit(s[i])
    decreases |s|
  {
    if s == [] then Success([])
    else
      match (DigitValue(s[0]), DigitValue(s[1]))
      case (Some(hi), Some(lo)) =>
        (match DecodePairs(s[2..], offset + 2)
         case Success(rest) => Success([hi as int * 16 + lo] + rest)
         case Failure(e) => Failure(e))
      case _ => Failure(NonHexCharacter(offset))
  }

  /** One step of `DecodePairs` on a well-formed leading pair. */
  lemma DecodePairsCons(s: string, offset: nat)
    requires |s| >= 2 && |s| % 2 == 0
    requires IsHexDigit(s[0]) && IsHexDigit(s[1]) && DecodePairs(s[2..], offset + 2).Success?
    ensures DecodePairs(s, offset)
            == Success([DigitValue(s[0]).value as int * 16 + DigitValue(s[1]).value]
                       + DecodePairs(s[2..], offset + 2).value)
  {
  }

  lemma DigitRoundTrip(v: nibble)
    ensures DigitValue(LowerDigits[v]) == Some(v)
  {
  }

  /** Round trip: decoding an encoding gives back the bytes. */
  lemma DecodeEncode(bytes: seq<byte>)
    ensures Decode(Encode(bytes)) == Success(bytes)
  {
    DecodePairsEncode(bytes, 0);
  }

  lemma {:induction false} DecodePairsEncode(bytes: seq<byte>, offset: nat)
    ensures DecodePairs(Encode(bytes), offset) == Success(bytes)
  {
    if bytes != [] {
      var s := Encode(bytes);
      var b := bytes[0];
      DigitRoundTrip(b / 16);
      DigitRoundTrip(b % 16);
      assert DigitValue(s[0]) == Some(b / 16) && DigitValue(s[1]) == Some(b % 16);
      assert s[2..] == Encode(bytes[1..]);
      DecodePairsEncode(bytes[1..], offset + 2);
      DecodePairsCons(s, offset);
      assert (b / 16) * 16 + b % 16 == b;
      assert [b] + bytes[1..] == bytes;
    }
  }

  /**
   * Re-encoding what `Decode` accepted gives the input folded to lower case:
   * the codec is canonical on lower-case input.
   */
  lemma {:induction false} EncodeDecode(s: string)
    requires Decode(s).Success?
    ensures Encode(Decode(s).value) == Lower(s)
  {
    DecodePairsLower(s, 0);
  }

  lemma {:induction false} DecodePairsLower(s: string, offset: nat)
    requires |s| % 2 == 0
    requires DecodePairs(s, offset).Success?
    ensures Encode(DecodePairs(s, offset).value) == Lower(s)
    decreases |s|
  {
    if s != [] {
      var hi, lo := DigitValue(s[0]).value, DigitValue(s[1]).value;
      var rest := DecodePairs(s[2..], offset + 2).value;
      DecodePairsLower(s[2..], offset + 2);
      DecodePairsCons(s, offset);
      var v := hi as int * 16 + lo;
      assert v / 16 == hi && v % 16 == lo;
      LowerDigitOf(s[0]);
      LowerDigitOf(s[1]);
      EncodeCons(v, rest);
      LowerCons(s);
    }
  }

  /** The lower-case digit of a hex digit's value is the digit folded to lower case. */
  lemma LowerDigitOf(c: char)
    requires IsHexDigit(c)
    ensures LowerDigits[DigitValue(c).value] == LowerChar(c)
  {
  }

  lemma EncodeCons(b: byte, rest: seq<byte>)
    ensures Encode([b] + rest) == [LowerDigits[b / 16], LowerDigits[b % 16]] + Encode(rest)
  {
    assert ([b] + rest)[1..] == rest;
  }

  lemma LowerCons(s: string)
    requires |s| >= 2
    ensures Lower(s) == [LowerChar(s[0]), LowerChar(s[1])] + Lower(s[2..])
  {
  }
}
