/**
 * Hexadecimal text of byte strings: base 16 as in section 8 of RFC 4648, lowercase when written,
 * either case when read.  And the 32-byte hashes read from it.
 */
module Hex {
  import opened Words
  import opened Numerals

  function Digit(nibble: nat): Byte
    requires nibble < 16
  {
    if nibble <= 9 then Ascii('0') + nibble else Ascii('a') + nibble - 10
  }

  function DigitValue(c: Byte): Option<nat> {
    if Ascii('0') <= c <= Ascii('9') then Some(c - Ascii('0'))
    else if Ascii('a') <= c <= Ascii('f') then Some(c - Ascii('a') + 10)
    else if Ascii('A') <= c <= Ascii('F') then Some(c - Ascii('A') + 10)
    else None
  }

  predicate IsHexDigit(c: Byte) {
    || Ascii('0') <= c <= Ascii('9')
    || Ascii('a') <= c <= Ascii('f')
    || Ascii('A') <= c <= Ascii('F')
  }

  predicate AllHex(s: Text) {
    forall i :: 0 <= i < |s| ==> IsHexDigit(s[i])
  }

  function LowerByte(c: Byte): Byte {
    if Ascii('A') <= c <= Ascii('Z') then c + 32 else c
  }

  /** `to_ascii_lowercase`. */
  function Lower(s: Text): (r: Text)
    ensures |r| == |s|
  {
    seq(|s|, i requires 0 <= i < |s| => LowerByte(s[i]))
  }

  // ---------------------------------------------------------------- what the text means

  function Encoding(bytes: seq<Byte>): Text {
    if bytes == [] then []
    else [Digit(bytes[0] / 16), Digit(bytes[0] % 16)] + Encoding(bytes[1..])
  }

  /** The byte two characters stand for. */
  function Pair(hi: Byte, lo: Byte): Option<Byte> {
    if DigitValue(hi).Some? && DigitValue(lo).Some? then
      Some(16 * DigitValue(hi).value + DigitValue(lo).value)
    else None
  }

  /** As many whole bytes as can be read from the front. */
  function ReadPairs(s: Text): seq<Byte> {
    if |s| < 2 || Pair(s[0], s[1]).None? then []
    else [Pair(s[0], s[1]).value] + ReadPairs(s[2..])
  }

  /** Defined on even-length hex and nothing else. */
  function Decoding(s: Text): Option<seq<Byte>> {
    if |s| == 2 * |ReadPairs(s)| then Some(ReadPairs(s)) else None
  }

  lemma {:induction false} ReadPairsLength(s: Text)
    ensures 2 * |ReadPairs(s)| <= |s|
    ensures 2 * |ReadPairs(s)| == |s| <==> |s| % 2 == 0 && AllHex(s)
    decreases |s|
  {
    if |s| >= 2 {
      ReadPairsLength(s[2..]);
      if Pair(s[0], s[1]).Some? {
        if AllHex(s[2..]) {
          assert forall i :: 2 <= i < |s| ==> s[i] == s[2..][i - 2];
        }
        if AllHex(s) {
          assert forall i :: 0 <= i < |s| - 2 ==> s[2..][i] == s[i + 2];
        }
      } else {
        assert !IsHexDigit(s[0]) || !IsHexDigit(s[1]);
      }
    }
  }

  lemma DigitRoundTrip(c: Byte, n: nat)
    requires n < 16
    ensures DigitValue(Digit(n)) == Some(n)
    ensures DigitValue(c).Some? ==> DigitValue(c).value < 16 && Digit(DigitValue(c).value) == LowerByte(c)
  {
  }

  /** Reading undoes writing. */
  lemma {:induction false} DecodingOfEncoding(bytes: seq<Byte>)
    ensures |Encoding(bytes)| == 2 * |bytes|
    ensures ReadPairs(Encoding(bytes)) == bytes
    ensures Decoding(Encoding(bytes)) == Some(bytes)
  {
    if bytes != [] {
      DecodingOfEncoding(bytes[1..]);
      var s := Encoding(bytes);
      DigitRoundTrip(0, bytes[0] / 16);
      DigitRoundTrip(0, bytes[0] % 16);
      assert s[2..] == Encoding(bytes[1..]);
      hide DigitValue, Digit;
    }
  }

  lemma {:induction false} EncodingOfPairs(s: Text)
    requires |s| == 2 * |ReadPairs(s)|
    ensures Encoding(ReadPairs(s)) == Lower(s)
    decreases |s|
  {
    if s == [] {
    } else {
      var rest := s[2..];
      var bytes := ReadPairs(s);
      assert bytes[1..] == ReadPairs(rest);
      EncodingOfPairs(rest);
      DigitRoundTrip(s[0], 0);
      DigitRoundTrip(s[1], 0);
      hide DigitValue, Digit, LowerByte;
      var hi, lo := DigitValue(s[0]).value, DigitValue(s[1]).value;
      assert bytes[0] == 16 * hi + lo && bytes[0] / 16 == hi && bytes[0] % 16 == lo;
      assert Lower(s) == [LowerByte(s[0]), LowerByte(s[1])] + Lower(rest);
    }
  }

  /**
   * Reading accepts exactly even-length hex, and writing what was read gives the text back in
   * lowercase.
   */
  lemma EncodingOfDecoding(s: Text)
    ensures Decoding(s).Some? <==> |s| % 2 == 0 && AllHex(s)
    ensures Decoding(s).Some? ==> |Decoding(s).value| * 2 == |s| && Encoding(Decoding(s).value) == Lower(s)
  {
    ReadPairsLength(s);
    if Decoding(s).Some? {
      EncodingOfPairs(s);
    }
  }

  // ---------------------------------------------------------------- the loops

  method Encode(bytes: seq<Byte>) returns (out: Text)
    ensures out == Encoding(bytes)
  {
    out := [];
    for i := 0 to |bytes|
      invariant out + Encoding(bytes[i..]) == Encoding(bytes)
    {
      var pair: Text := [Digit(bytes[i] / 16), Digit(bytes[i] % 16)];
      assert bytes[i..][1..] == bytes[i + 1..];
      assert (out + pair) + Encoding(bytes[i + 1..]) == out + (pair + Encoding(bytes[i + 1..]));
      out := out + pair;
    }
  }

  lemma PairsFrom(s: Text, i: nat)
    requires 2 * i + 2 <= |s|
    ensures var pair := Pair(s[2 * i], s[2 * i + 1]);
            && (pair.None? ==> ReadPairs(s[2 * i..]) == [])
            && (pair.Some? ==> ReadPairs(s[2 * i..]) == [pair.value] + ReadPairs(s[2 * i + 2..]))
  {
    assert s[2 * i..][2..] == s[2 * i + 2..];
    hide Pair;
  }

  lemma PairsFromEnd(s: Text, i: nat)
    requires 2 * i == |s|
    ensures ReadPairs(s[2 * i..]) == []
  {
  }

  /**
   * Writes the caller's buffer in place.  On a bad character the bytes before it have already been
   * written and the rest are as they were.
   */
  method DecodeToSlice(s: Text, out: array<Byte>) returns (ok: bool)
    modifies out
    ensures ok <==> |s| == 2 * out.Length && AllHex(s)
    ensures ok ==> Decoding(s) == Some(out[..])
    ensures |s| != 2 * out.Length ==> out[..] == old(out[..])
    ensures |s| == 2 * out.Length ==>
              var n := |ReadPairs(s)|;
              n <= out.Length && out[..n] == ReadPairs(s) && out[n..] == old(out[n..])
  {
    ReadPairsLength(s);
    if |s| != 2 * out.Length {
      return false;
    }
    hide ReadPairs, Pair, AllHex;
    ghost var first, all := out[..], ReadPairs(s);
    var i := 0;
    assert s[0..] == s && out[..0] + all == all;
    while i < out.Length
      invariant 0 <= i <= out.Length
      invariant out[..i] + ReadPairs(s[2 * i..]) == all
      invariant out[i..] == first[i..]
    {
      var hi, lo := s[2 * i], s[2 * i + 1];
      ghost var done, left := out[..i], ReadPairs(s[2 * i + 2..]);
      PairsFrom(s, i);
      match Pair(hi, lo) {
        case None =>
          assert done + [] == done;
          return false;
        case Some(byte) =>
          ConcatAssociates(done, [byte], left);
          out[i] := byte;
          assert out[..i + 1] == done + [byte] && out[i + 1..] == first[i + 1..];
          assert s[2 * (i + 1)..] == s[2 * i + 2..];
      }
      i := i + 1;
    }
    PairsFromEnd(s, i);
    assert out[..i] + [] == out[..];
    ok := true;
  }

  /** A fresh buffer of half the length; an odd length is then refused. */
  method Decode(s: Text) returns (r: Option<seq<Byte>>)
    ensures r == Decoding(s)
  {
    var out := new Byte[|s| / 2](_ => 0);
    EncodingOfDecoding(s);
    var ok := DecodeToSlice(s, out);
    r := if ok then Some(out[..]) else None;
  }

  // ---------------------------------------------------------------- hashes

  const HASH_HEX_LEN := 64

  datatype HashResult = Hash(hash: Hash32) | WrongLength(len: nat) | NotHex

  /** Exactly 64 hexadecimal characters, the length being looked at first. */
  function HashFromText(s: Text): HashResult {
    if |s| != HASH_HEX_LEN then WrongLength(|s|)
    else if !AllHex(s) then NotHex
    else
      ReadPairsLength(s);
      Hash(ReadPairs(s))
  }

  /** Which text is a hash, and what is said of one that is not. */
  lemma HashErrors(s: Text)
    ensures HashFromText(s).Hash? <==> |s| == 64 && AllHex(s)
    ensures HashFromText(s) == WrongLength(|s|) <==> |s| != 64
    ensures HashFromText(s) == NotHex <==> |s| == 64 && !AllHex(s)
  {
    hide AllHex, ReadPairs;
  }

  /** `parse().unwrap_or(Hash32::ZERO)`. */
  function HashOrZero(s: Text): Hash32 {
    match HashFromText(s)
    case Hash(h) => h
    case _ => Repeat(0, 32)
  }

  lemma HexOfLower(s: Text)
    requires AllHex(Lower(s))
    ensures AllHex(s)
  {
    forall i | 0 <= i < |s| ensures IsHexDigit(s[i]) {
      assert IsHexDigit(Lower(s)[i]);
    }
  }

  lemma EncodingInjective(a: seq<Byte>, b: seq<Byte>)
    requires Encoding(a) == Encoding(b)
    ensures a == b
  {
    DecodingOfEncoding(a);
    DecodingOfEncoding(b);
  }

  /** A hash is read from its own text, and from no other text but in the case of its letters. */
  lemma HashRoundTrip(h: Hash32, s: Text)
    ensures HashFromText(Encoding(h)) == Hash(h)
    ensures HashFromText(s) == Hash(h) <==> Lower(s) == Encoding(h)
  {
    DecodingOfEncoding(h);
    EncodingOfDecoding(Encoding(h));
    EncodingOfDecoding(s);
    ReadPairsLength(s);
    hide Encoding, Lower, ReadPairs;
    if Lower(s) == Encoding(h) {
      HexOfLower(s);
      assert |s| == 64;
      EncodingInjective(ReadPairs(s), h);
    }
  }
}
