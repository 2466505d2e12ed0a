/**
 * Why a blob stopped decoding, byte by byte: what each kind of failure says of the bytes at which the
 * decoding stopped, and where it points.
 */
module FailureKinds {
  import opened Words
  import opened Varint
  import opened TxExtra
  import opened RoundTrip
  import opened BlobTheorems

  /** The failure is that of the field at which the decoding stopped, counted from the start. */
  ghost predicate FailsAt(s: seq<Byte>, r: Parsed) {
    && r.error.Some? && r.consumed < |s| && DecodeField(s[r.consumed..]).Failed?
    && r.error.value == DecodeField(s[r.consumed..]).error.Shifted(r.consumed)
  }

  lemma FailsLater(s: seq<Byte>, f: Field, n: nat, r: Parsed)
    requires n <= |s| && FailsAt(s[n..], r)
    ensures FailsAt(s, r.After([f], n))
  {
    hide DecodeField;
    assert s[n..][r.consumed..] == s[n + r.consumed..];
  }

  lemma FailsHere(s: seq<Byte>)
    requires s != [] && DecodeField(s).Failed?
    ensures FailsAt(s, Parsed([], |s|, 0, Some(DecodeField(s).error)))
  {
    hide DecodeField;
    assert s[0..] == s;
  }

  lemma {:induction false} FailureIsTheFields(s: seq<Byte>)
    requires !Decode(s).IsComplete()
    ensures FailsAt(s, Decode(s))
    decreases |s|
  {
    hide DecodeField, Decode, FailsAt;
    DecodeEmpty();
    FirstField(s);
    var d := DecodeField(s);
    if d.Decoded? {
      FailureIsTheFields(s[d.next..]);
      FailsLater(s, d.field, d.next, Decode(s[d.next..]));
    } else {
      FailsHere(s);
    }
  }

  /** The value a length or count varint begins with, and how many bytes it took. */
  ghost predicate Counts(rest: seq<Byte>, value: nat, width: nat) {
    rest != [] && Scan(rest[1..], 0).value == value && Scan(rest[1..], 0).next == width
  }

  ghost predicate GoodCount(rest: seq<Byte>) {
    rest != [] && Scan(rest[1..], 0).status.IsGood()
  }

  /** No tag of a field. */
  predicate IsUnknown(tag: Byte) {
    tag != 0x00 && tag != 0x01 && tag != 0x02 && tag != 0x03 && tag != 0x04 && tag != 0xDE
  }

  /** An unknown tag is reported at the tag, with the tag. */
  lemma UnknownTagMeans(rest: seq<Byte>)
    requires rest != []
    ensures DecodeField(rest) == Failed(ParseError(0, UnknownTag(rest[0]))) <==> IsUnknown(rest[0])
    ensures DecodeField(rest).Failed? && DecodeField(rest).error.kind.UnknownTag? ==> IsUnknown(rest[0])
  {
    FieldErrorKinds(rest);
    hide DecodePadding, DecodePubKey, DecodeNonce, DecodeMinerGate, DecodeMergeMining, DecodeAdditional;
  }

  lemma FieldErrorKinds(rest: seq<Byte>)
    requires rest != []
    ensures DecodeField(rest).Failed? && DecodeField(rest).error.kind.UnknownTag? ==>
              DecodeField(rest).error.offset == 0
    ensures !IsUnknown(rest[0]) && DecodeField(rest).Failed? ==> DecodeField(rest).error.offset != 0
  {
    if DecodeField(rest).Failed? {
      FieldError(rest);
      if !IsUnknown(rest[0]) && DecodeField(rest).error.kind.UnknownTag? {
        KnownTagsFail(rest);
      }
    }
    hide DecodeField;
  }

  lemma KnownTagsFail(rest: seq<Byte>)
    requires rest != [] && !IsUnknown(rest[0]) && DecodeField(rest).Failed?
    ensures !DecodeField(rest).error.kind.UnknownTag?
  {
    if rest[0] == TAG_NONCE || rest[0] == TAG_MERGE_MINING || rest[0] == TAG_MINERGATE {
      if DecodeFrame(rest).Unframed? {
        FrameError(rest);
      }
      hide DecodeFrame, DecodeBlob;
    } else if rest[0] == TAG_ADDITIONAL_PUBKEYS {
      AdditionalError(rest);
      hide DecodeAdditional;
    }
  }

  /** Padding fails at its first byte that is not zero, or past 255 zeros after the tag. */
  lemma PaddingMeans(rest: seq<Byte>, k: nat)
    requires rest != [] && rest[0] == 0x00
    ensures DecodeField(rest) == Failed(ParseError(k, PaddingNonZero)) <==>
              && 1 <= k <= 255 && k < |rest| && rest[k] != 0 && forall i :: 0 <= i < k ==> rest[i] == 0
    ensures DecodeField(rest) == Failed(ParseError(k, PaddingTooLong)) <==>
              k == 256 && |rest| >= 256 && forall i :: 0 <= i < 256 ==> rest[i] == 0
    ensures DecodeField(rest).Failed? ==>
              DecodeField(rest).error.kind == PaddingNonZero || DecodeField(rest).error.kind == PaddingTooLong
  {
    var z := LeadingZeros(rest[1..]);
    assert forall i :: 1 <= i < |rest| ==> rest[i] == rest[1..][i - 1];
    hide LeadingZeros;
    if z + 1 < |rest| {
      assert rest[1..][z] != 0;
    }
  }

  /** A public key fails for want of bytes and nothing else. */
  lemma PubKeyMeans(rest: seq<Byte>)
    requires rest != [] && rest[0] == 0x01
    ensures DecodeField(rest).Failed? <==> |rest| < 33
    ensures DecodeField(rest).Failed? ==> DecodeField(rest).error == ParseError(1, TruncatedPubKey)
  {
  }

  /**
   * A length-prefixed field fails, just past its length, if the length is more than the bytes left,
   * or not zero and no good; if it is zero and no good; and past its bytes for what they are.
   */
  lemma FrameMeans(rest: seq<Byte>, value: nat, width: nat)
    requires Counts(rest, value, width) && (rest[0] == 0x02 || rest[0] == 0x03 || rest[0] == 0xDE)
    ensures var r := DecodeField(rest);
            var left := |rest| - 1 - width;
            && (r == Failed(ParseError(1 + width, LengthBeyondEnd)) <==>
                  if GoodCount(rest) then value > left else value > 0)
            && (r == Failed(ParseError(1 + width, BadVarint)) <==> !GoodCount(rest) && value == 0)
            && (r == Failed(ParseError(1 + width + value, NonceTooLong)) <==>
                  rest[0] == 0x02 && GoodCount(rest) && 255 < value <= left)
            && (r == Failed(ParseError(1 + width + value, MergeMiningBlob)) <==>
                  && rest[0] == 0x03 && GoodCount(rest) && value <= left
                  && DecodeBlob(rest[1 + width..1 + width + value]).None?)
            && (r.Decoded? ==> r.next == 1 + width + value)
  {
    FrameOfCount(rest, value, width);
    hide Scan, DecodeFrame, DecodeBlob, Counts, GoodCount;
  }

  lemma FrameOfCount(rest: seq<Byte>, value: nat, width: nat)
    requires Counts(rest, value, width)
    ensures 1 + width <= |rest|
    ensures var left := |rest| - 1 - width;
            DecodeFrame(rest) ==
            if !GoodCount(rest) then Unframed(ParseError(1 + width, if value > 0 then LengthBeyondEnd else BadVarint))
            else if value > left then Unframed(ParseError(1 + width, LengthBeyondEnd))
            else Framed(rest[1 + width..1 + width + value], 1 + width + value)
  {
    hide Scan;
  }

  /** Additional keys fail past their count, or past the last whole key there is. */
  lemma AdditionalMeans(rest: seq<Byte>, count: nat, width: nat)
    requires Counts(rest, count, width) && rest[0] == 0x04
    ensures var r := DecodeField(rest);
            var left := |rest| - 1 - width;
            && (r == Failed(ParseError(1 + width, BadVarint)) <==> !GoodCount(rest))
            && (r == Failed(ParseError(1 + width, LengthBeyondEnd)) <==> GoodCount(rest) && count > left)
            && (r.Failed? && r.error.kind == TruncatedAdditionalKeys <==>
                  GoodCount(rest) && count <= left < 32 * count)
            && (r.Failed? && r.error.kind == TruncatedAdditionalKeys ==>
                  r.error.offset <= |rest| < r.error.offset + 32 && (r.error.offset - 1 - width) % 32 == 0)
  {
    hide Scan, Keys;
  }
}
