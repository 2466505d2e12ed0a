/**
 * What the tx_extra decoder promises of every blob: the exact inverse, where it stops and why,
 * that it works field by field, and how many fields a blob can hold.
 */
module BlobTheorems {
  import opened Words
  import opened Varint
  import opened TxExtra
  import opened RoundTrip

  // ---------------------------------------------------------------- one field, then the rest

  lemma DecodeEmpty()
    ensures Decode([]) == Parsed([], 0, 0, None)
  {
  }

  /** The case split of the inductions below: the first field, and the blob after it. */
  lemma FirstField(s: seq<Byte>)
    requires s != []
    ensures var d := DecodeField(s);
            && (d.Failed? ==> Decode(s) == Parsed([], |s|, 0, Some(d.error)))
            && (d.Decoded? ==> Faithful(s, d.field, d.next))
            && (d.Decoded? ==> Decode(s) == Decode(s[d.next..]).After([d.field], d.next))
            && (d.Decoded? && d.field.Padding? ==> Decode(s) == Parsed([d.field], |s|, |s|, None))
  {
    if DecodeField(s).Decoded? {
      FieldFaithful(s);
      hide DecodeField;
      var n := DecodeField(s).next;
      if n == |s| {
        assert s[n..] == [];
      }
    }
  }

  /**
   * Every list the decoder returns can be printed: fields fit their framing, padding comes last.
   * A decoding that stopped early holds no padding at all.
   */
  lemma {:induction false} FieldsWellFormed(s: seq<Byte>)
    ensures var r := Decode(s);
            && WellFormed(r.fields)
            && r.consumed <= |s|
            && (r.IsComplete() ==> r.consumed == |s|)
            && (!r.IsComplete() ==> NoPadding(r.fields))
    decreases |s|
  {
    if s == [] {
      DecodeEmpty();
    } else {
      FirstField(s);
      var d := DecodeField(s);
      hide DecodeField, Decode;
      if d.Decoded? && !d.field.Padding? {
        FieldsWellFormed(s[d.next..]);
      }
    }
  }

  /** s is the text of all but the last field, then the last field's tag and cut-off length. */
  predicate EndsCutOff(s: seq<Byte>, fields: seq<Field>) {
    && fields != []
    && var front := Encode(fields[..|fields| - 1]);
    && |front| <= |s| && s[..|front|] == front && IsCutOff(s[|front|..], fields[|fields| - 1])
  }

  lemma CutOffCons(s: seq<Byte>, f: Field, n: nat, rest: seq<Field>)
    requires n <= |s| && s[..n] == EncodeField(f) && EndsCutOff(s[n..], rest)
    ensures EndsCutOff(s, [f] + rest)
  {
    hide EncodeField, IsCutOff;
    var front := Encode(rest[..|rest| - 1]);
    EncodeCons(f, rest[..|rest| - 1]);
    assert ([f] + rest)[..|rest|] == [f] + rest[..|rest| - 1];
    assert s[..n + |front|] == s[..n] + s[n..][..|front|];
    assert s[n + |front|..] == s[n..][|front|..];
  }

  /** The fields of r print as the part of s they came from, unless s ends cut off. */
  predicate Prints(s: seq<Byte>, r: Parsed) {
    && r.consumed <= |s|
    && (Encode(r.fields) == s[..r.consumed] || (r.IsComplete() && EndsCutOff(s, r.fields)))
  }

  lemma PrintsAfter(s: seq<Byte>, f: Field, n: nat, r: Parsed)
    requires n <= |s| && s[..n] == EncodeField(f) && Prints(s[n..], r)
    ensures Prints(s, r.After([f], n))
  {
    hide EncodeField, EndsCutOff;
    if r.IsComplete() && EndsCutOff(s[n..], r.fields) {
      CutOffCons(s, f, n, r.fields);
    } else {
      EncodeCons(f, r.fields);
      assert s[..n + r.consumed] == s[..n] + s[n..][..r.consumed];
    }
  }

  lemma PrintsCutOff(s: seq<Byte>, f: Field)
    requires IsCutOff(s, f)
    ensures Prints(s, Parsed([f], |s|, |s|, None))
  {
    hide EncodeField, IsCutOff;
    assert [f][..0] == [];
    assert s[0..] == s;
  }

  /** The text of what was decoded is what was consumed, unless the blob ends cut off. */
  lemma {:induction false} DecodedPrints(s: seq<Byte>)
    ensures Prints(s, Decode(s))
    decreases |s|
  {
    if s == [] {
      DecodeEmpty();
    } else {
      FirstField(s);
      var d := DecodeField(s);
      hide DecodeField, Decode, EndsCutOff, EncodeField, IsCutOff;
      if d.Decoded? {
        if s[..d.next] == EncodeField(d.field) {
          DecodedPrints(s[d.next..]);
          PrintsAfter(s, d.field, d.next, Decode(s[d.next..]));
        } else {
          PrintsCutOff(s, d.field);
          DecodeEmpty();
          assert s[d.next..] == [] && [d.field] + [] == [d.field];
        }
      }
    }
  }

  /** What a blob that ends cut off prints back as: its last length varint becomes a zero. */
  lemma CutOffPrints(s: seq<Byte>, fields: seq<Field>)
    requires EndsCutOff(s, fields)
    ensures var front, f := Encode(fields[..|fields| - 1]), fields[|fields| - 1];
            && Encode(fields) == front + [f.Tag(), 0]
            && 2 <= |s| - |front| <= 10
            && s == front + ([f.Tag()] + Repeat(0x80, |s| - |front| - 1))
  {
    var front, f := fields[..|fields| - 1], fields[|fields| - 1];
    assert fields == front + [f];
    EncodeAppends(front, [f]);
    EncodeCons(f, []);
    ZeroLengthText(f);
    hide *;
    assert [f] + [] == [f] && EncodeField(f) + [] == EncodeField(f);
    assert s == s[..|Encode(front)|] + s[|Encode(front)|..];
  }

  lemma ZeroLengthText(f: Field)
    requires HasZeroLength(f)
    ensures EncodeField(f) == [f.Tag(), 0]
  {
    assert EncodeVarint(0) == [0];
    match f {
      case Nonce(_) =>
      case MinerGate(_) =>
      case AdditionalPubKeys(_) => assert EncodeKeys([]) == [];
      case _ =>
    }
  }

  /**
   * Complete blobs, told by what was decoded.  The printed fields are the blob itself, except when
   * the last field has zero length and the blob's last byte is not that zero.
   */
  lemma CompletePrints(s: seq<Byte>)
    requires Decode(s).IsComplete()
    ensures var fields := Decode(s).fields;
            && (Encode(fields) == s <==>
                !(fields != [] && HasZeroLength(fields[|fields| - 1]) && s != [] && s[|s| - 1] != 0))
            && (Encode(fields) != s ==>
                  && EndsCutOff(s, fields)
                  && Encode(fields) == Encode(fields[..|fields| - 1]) + [fields[|fields| - 1].Tag(), 0])
  {
    var r := Decode(s);
    FieldsWellFormed(s);
    DecodedPrints(s);
    hide Decode, EncodeField;
    assert s[..|s|] == s;
    if EndsCutOff(s, r.fields) {
      CutOffPrints(s, r.fields);
      hide EndsCutOff;
      CutOffDiffers(s, r.fields);
    } else if r.fields != [] && HasZeroLength(r.fields[|r.fields| - 1]) {
      LastZero(r.fields);
    }
  }

  lemma LastZero(fields: seq<Field>)
    requires fields != [] && HasZeroLength(fields[|fields| - 1])
    ensures Encode(fields) != [] && Encode(fields)[|Encode(fields)| - 1] == 0
  {
    var front, f := fields[..|fields| - 1], fields[|fields| - 1];
    assert fields == front + [f];
    EncodeAppends(front, [f]);
    EncodeCons(f, []);
    ZeroLengthText(f);
    hide *;
    assert [f] + [] == [f];
  }

  lemma CutOffDiffers(s: seq<Byte>, fields: seq<Field>)
    requires EndsCutOff(s, fields)
    ensures HasZeroLength(fields[|fields| - 1]) && s != [] && s[|s| - 1] == 0x80
    ensures Encode(fields) != s
  {
    LastZero(fields);
    hide Encode, HasZeroLength;
  }

  // ---------------------------------------------------------------- the exact inverse

  /** What the printer makes of some list with no padding. */
  ghost predicate IsPrinted(p: seq<Byte>) {
    exists fields :: WellFormed(fields) && NoPadding(fields) && Encode(fields) == p
  }

  /** The same, asking the decoder. */
  predicate PrintsAsItself(p: seq<Byte>) {
    NoPadding(Decode(p).fields) && Encode(Decode(p).fields) == p
  }

  lemma PrintedIsItself(p: seq<Byte>)
    ensures IsPrinted(p) <==> PrintsAsItself(p)
  {
    FieldsWellFormed(p);
    if IsPrinted(p) {
      var fields :| WellFormed(fields) && NoPadding(fields) && Encode(fields) == p;
      ForwardRoundTrip(fields);
    }
    hide Decode, Encode, WellFormed, NoPadding;
  }

  /** The tags of fields that are two bytes long when they hold nothing. */
  predicate TakesZeroLength(tag: Byte) {
    tag == TAG_NONCE || tag == TAG_MINERGATE || tag == TAG_ADDITIONAL_PUBKEYS
  }

  /** A tag 02, de or 04 and one to nine bytes 80. */
  predicate CutOffTail(t: seq<Byte>) {
    2 <= |t| <= 10 && TakesZeroLength(t[0]) && t[1..] == Repeat(0x80, |t| - 1)
  }

  /** A printed blob, and then such a tail: nothing here asks the decoder. */
  ghost predicate IsPrintedThenCutOff(s: seq<Byte>) {
    exists k :: 0 <= k <= |s| && IsPrinted(s[..k]) && CutOffTail(s[k..])
  }

  function ZeroLengthField(tag: Byte): (f: Field)
    requires TakesZeroLength(tag)
    ensures HasZeroLength(f) && f.Tag() == tag && Fits(f) && !f.Padding?
  {
    if tag == TAG_NONCE then Nonce([]) else if tag == TAG_MINERGATE then MinerGate([]) else AdditionalPubKeys([])
  }

  /** A cut-off tail is a field all the same. */
  lemma CutOffTailDecodes(t: seq<Byte>)
    requires CutOffTail(t)
    ensures Decode(t) == Parsed([ZeroLengthField(t[0])], |t|, |t|, None)
  {
    CutOffTailField(t);
    hide DecodeField, CutOffTail;
    DecodeEmpty();
    assert t[|t|..] == [];
  }

  lemma CutOffTailField(t: seq<Byte>)
    requires CutOffTail(t)
    ensures DecodeField(t) == Decoded(ZeroLengthField(t[0]), |t|)
  {
    ScanOfContinuations(|t| - 1, 0);
    hide Scan;
    if t[0] == TAG_ADDITIONAL_PUBKEYS {
      assert DecodeAdditional(t) == Decoded(AdditionalPubKeys([]), |t|);
    } else {
      assert DecodeFrame(t) == Framed([], |t|);
    }
    hide DecodeAdditional, DecodeFrame, CutOffTail;
  }

  /** Every such blob is complete, and none of them comes back: the tail prints as its tag and 00. */
  lemma CutOffNeverComesBack(p: seq<Byte>, t: seq<Byte>)
    requires PrintsAsItself(p) && CutOffTail(t)
    ensures Decode(p + t) == Parsed(Decode(p).fields + [ZeroLengthField(t[0])], |p + t|, |p + t|, None)
    ensures Encode(Decode(p + t).fields) == p + [t[0], 0] != p + t
  {
    Locality(p, t);
    CutOffTailDecodes(t);
    var f := ZeroLengthField(t[0]);
    EncodeAppends(Decode(p).fields, [f]);
    EncodeCons(f, []);
    ZeroLengthText(f);
    hide Decode, HasZeroLength;
    assert [f] + [] == [f] && [t[0], 0] + [] == [t[0], 0];
    assert (p + t)[|p|..] == t && (p + [t[0], 0])[|p|..] == [t[0], 0];
    assert t[1] == t[1..][0] == 0x80;
  }

  lemma SplitNeverComesBack(s: seq<Byte>, k: nat)
    requires k <= |s| && IsPrinted(s[..k]) && CutOffTail(s[k..])
    ensures k < |s| && Decode(s).IsComplete()
    ensures Encode(Decode(s).fields) == s[..k] + [s[k], 0] != s
  {
    var p, t := s[..k], s[k..];
    assert |t| >= 2;
    PrintedIsItself(p);
    CutOffNeverComesBack(p, t);
    hide *;
    assert p + t == s && t[0] == s[k];
  }

  /** What ends cut off, by its fields, is such a blob. */
  lemma EndsCutOffSplits(s: seq<Byte>)
    requires Decode(s).IsComplete() && EndsCutOff(s, Decode(s).fields)
    ensures IsPrintedThenCutOff(s)
  {
    FieldsWellFormed(s);
    var fields := Decode(s).fields;
    var front, f := fields[..|fields| - 1], fields[|fields| - 1];
    hide Decode;
    var k := |Encode(front)|;
    assert WellFormed(front) && NoPadding(front);
    CutOffTailIs(s[k..], f);
    hide CutOffTail, HasZeroLength, Encode, WellFormed, NoPadding;
    assert IsPrinted(s[..k]);
  }

  lemma CutOffTailIs(t: seq<Byte>, f: Field)
    requires IsCutOff(t, f)
    ensures CutOffTail(t)
  {
  }

  /**
   * The exact inverse, for every blob.  The fields print as the bytes that were consumed, all of
   * them if the parse was complete, except for the blobs that are a printed one and then a tag 02,
   * de or 04 with one to nine bytes 80.
   */
  lemma ExactInverse(s: seq<Byte>)
    ensures Decode(s).consumed <= |s|
    ensures Encode(Decode(s).fields) == s[..Decode(s).consumed] <==> !IsPrintedThenCutOff(s)
    ensures IsPrintedThenCutOff(s) ==> Decode(s).IsComplete()
  {
    hide IsPrinted, CutOffTail, Decode, Encode, EndsCutOff, WellFormed, NoPadding;
    DecodedPrints(s);
    FieldsWellFormed(s);
    if IsPrintedThenCutOff(s) {
      var k :| 0 <= k <= |s| && IsPrinted(s[..k]) && CutOffTail(s[k..]);
      SplitNeverComesBack(s, k);
      assert s[..|s|] == s;
    } else if Decode(s).IsComplete() && EndsCutOff(s, Decode(s).fields) {
      EndsCutOffSplits(s);
    }
  }

  /**
   * Complete blobs: the printed fields are the blob itself if and only if it is not a printed blob
   * cut off after a tag; and then they are that blob with 00 for what follows the tag.
   */
  lemma CompleteInverse(s: seq<Byte>)
    requires Decode(s).IsComplete()
    ensures Encode(Decode(s).fields) == s <==> !IsPrintedThenCutOff(s)
    ensures forall k :: 0 <= k <= |s| && IsPrinted(s[..k]) && CutOffTail(s[k..]) ==>
              Encode(Decode(s).fields) == s[..k] + [s[k], 0]
  {
    ExactInverse(s);
    FieldsWellFormed(s);
    assert s[..|s|] == s;
    forall k | 0 <= k <= |s| && IsPrinted(s[..k]) && CutOffTail(s[k..])
      ensures Encode(Decode(s).fields) == s[..k] + [s[k], 0]
    {
      SplitNeverComesBack(s, k);
    }
    hide *;
  }

  /** The shortest blob that does not come back. */
  lemma ShortestCutOff()
    ensures Decode([0x02, 0x80]) == Parsed([Nonce([])], 2, 2, None)
    ensures Encode(Decode([0x02, 0x80]).fields) == [0x02, 0x00]
  {
    var t: seq<Byte> := [0x02, 0x80];
    DecodeEmpty();
    assert t[1..] == Repeat(0x80, 1);
    CutOffNeverComesBack([], t);
    hide Decode;
    assert [] + t == t && [] + [t[0], 0] == [0x02, 0x00];
  }

  /** The exact inverse, incomplete blobs: what was consumed is what the fields print as. */
  lemma IncompleteInverse(s: seq<Byte>)
    requires !Decode(s).IsComplete()
    ensures Decode(s).consumed <= |s| && s[..Decode(s).consumed] == Encode(Decode(s).fields)
  {
    DecodedPrints(s);
  }

  /** A blob that decoded whole survives printing: the fields come back, and nothing else. */
  lemma Reencodes(s: seq<Byte>)
    requires Decode(s).IsComplete()
    ensures Decode(Encode(Decode(s).fields)).IsComplete()
    ensures Decode(Encode(Decode(s).fields)).fields == Decode(s).fields
  {
    FieldsWellFormed(s);
    ForwardRoundTrip(Decode(s).fields);
  }

  // ---------------------------------------------------------------- where it stops

  lemma FrameError(s: seq<Byte>)
    requires s != [] && DecodeFrame(s).Unframed?
    ensures 1 <= DecodeFrame(s).error.offset <= |s| && !DecodeFrame(s).error.kind.UnknownTag?
  {
  }

  lemma AdditionalError(s: seq<Byte>)
    requires s != [] && DecodeAdditional(s).Failed?
    ensures 1 <= DecodeAdditional(s).error.offset <= |s| && !DecodeAdditional(s).error.kind.UnknownTag?
  {
    hide Scan;
  }

  /** A field that fails has moved past its tag, unless the tag itself was the trouble. */
  lemma FieldError(s: seq<Byte>)
    requires s != [] && DecodeField(s).Failed?
    ensures var e := DecodeField(s).error;
            e.offset <= |s| && (e.offset == 0 <==> e.kind.UnknownTag?)
  {
    if s[0] == TAG_NONCE || s[0] == TAG_MERGE_MINING || s[0] == TAG_MINERGATE {
      if DecodeFrame(s).Unframed? {
        FrameError(s);
      }
      hide DecodeFrame, DecodeBlob;
    } else if s[0] == TAG_ADDITIONAL_PUBKEYS {
      AdditionalError(s);
      hide DecodeAdditional;
    }
  }

  /**
   * The offset of a failure lies between the end of what was decoded and the end of the blob, and
   * coincides with the former exactly when the tag was unknown.
   */
  lemma {:induction false} FailureOffset(s: seq<Byte>)
    requires !Decode(s).IsComplete()
    ensures var r := Decode(s);
            && r.consumed <= r.error.value.offset <= |s|
            && (r.error.value.offset == r.consumed <==> r.error.value.kind.UnknownTag?)
    decreases |s|
  {
    DecodeEmpty();
    FirstField(s);
    var d := DecodeField(s);
    hide DecodeField, Decode;
    if d.Decoded? {
      FailureOffset(s[d.next..]);
    } else {
      FieldError(s);
    }
  }

  // ---------------------------------------------------------------- field by field

  /**
   * Decoding is local: text that prints back as itself, with no padding in it, decodes the same
   * whatever follows, and what follows decodes as if it stood alone, offsets shifted.
   */
  lemma Locality(a: seq<Byte>, b: seq<Byte>)
    requires Encode(Decode(a).fields) == a && NoPadding(Decode(a).fields)
    ensures Decode(a + b) == Decode(b).After(Decode(a).fields, |a|)
  {
    FieldsWellFormed(a);
    DecodeOfPrefix(Decode(a).fields, b);
  }

  /** The part of a blob that was consumed decodes whole, to the same fields. */
  lemma ConsumedDecodesWhole(s: seq<Byte>)
    ensures var r := Decode(s);
            r.consumed <= |s| && Decode(s[..r.consumed]) == Parsed(r.fields, r.consumed, r.consumed, None)
  {
    var r := Decode(s);
    FieldsWellFormed(s);
    hide Decode;
    if r.IsComplete() {
      assert s[..|s|] == s;
    } else {
      IncompleteInverse(s);
      ForwardRoundTrip(r.fields);
    }
  }

  // ---------------------------------------------------------------- how many fields

  /** Nothing but two-byte fields, and then a lone 00. */
  predicate AllTwoBytesThenLoneZero(fields: seq<Field>) {
    && fields != []
    && fields[|fields| - 1] == Padding(1)
    && forall i :: 0 <= i < |fields| - 1 ==> HasZeroLength(fields[i])
  }

  lemma TwoByteFields(f: Field)
    requires Fits(f) && !f.Padding?
    ensures |EncodeField(f)| >= 2
    ensures |EncodeField(f)| == 2 <==> HasZeroLength(f)
  {
    if HasZeroLength(f) {
      ZeroLengthText(f);
    }
    match f {
      case AdditionalPubKeys(keys) => KeysOfPrinted(keys, []);
      case _ =>
    }
  }

  /** Any number of tags 02, 04 or de with a 00 after each, and then a lone 00. */
  predicate PairsThenZero(s: seq<Byte>)
    decreases |s|
  {
    s == [0] || (|s| >= 3 && TakesZeroLength(s[0]) && s[1] == 0 && PairsThenZero(s[2..]))
  }

  /**
   * A field costs at least two bytes, with the one exception of a lone 00.  So n consumed bytes
   * hold at most (n + 1) / 2 fields, and more than n / 2 exactly when the blob is empty two-byte
   * fields up to that last zero.
   */
  lemma {:induction false} FieldCount(s: seq<Byte>)
    ensures var r := Decode(s);
            && 2 * |r.fields| <= r.consumed + 1
            && (2 * |r.fields| > r.consumed <==> AllTwoBytesThenLoneZero(r.fields))
            && (2 * |r.fields| > r.consumed <==> PairsThenZero(s))
    decreases |s|
  {
    if s == [] {
      DecodeEmpty();
    } else {
      FirstField(s);
      PairFirst(s);
      var d := DecodeField(s);
      hide DecodeField, Decode, PairsThenZero;
      if d.Decoded? && !d.field.Padding? {
        FieldCount(s[d.next..]);
        FieldCountCons(s, d.field, d.next, Decode(s[d.next..]));
        if d.next != 2 {
          TwoByteFields(d.field);
        }
      } else {
        LoneZeroFirst(s);
      }
    }
  }

  /** A first field of two bytes is one of the pairs, unless it ends the blob. */
  lemma PairFirst(s: seq<Byte>)
    requires s != []
    ensures var d := DecodeField(s);
            && (d.Decoded? && d.next == 2 < |s| && !d.field.Padding? ==>
                  (PairsThenZero(s) <==> PairsThenZero(s[2..])))
            && (PairsThenZero(s) && s != [0] ==> d.Decoded? && d.next == 2 < |s| && !d.field.Padding?)
  {
    var d := DecodeField(s);
    if d.Decoded? && d.next == 2 < |s| && !d.field.Padding? {
      TwoByteFieldIsPair(s);
    }
    if |s| >= 3 && TakesZeroLength(s[0]) && s[1] == 0 {
      var f := ZeroLengthField(s[0]);
      ZeroLengthText(f);
      FieldOfPrinted(f, s[2..]);
      assert [s[0], 0] + s[2..] == s;
    }
    hide DecodeField, EncodeField, HasZeroLength;
  }

  lemma TwoByteFieldIsPair(s: seq<Byte>)
    requires 2 < |s| && DecodeField(s).Decoded? && DecodeField(s).next == 2 && !DecodeField(s).field.Padding?
    ensures TakesZeroLength(s[0]) && s[1] == 0
  {
    var f := DecodeField(s).field;
    FieldFaithful(s);
    hide DecodeField, IsCutOff, EncodeField;
    TwoByteFields(f);
    ZeroLengthText(f);
    assert s[0] == s[..2][0] && s[1] == s[..2][1];
  }

  lemma LoneZeroFirst(s: seq<Byte>)
    requires s != [] && (DecodeField(s).Failed? || DecodeField(s).field.Padding?)
    ensures s == [0] ==> DecodeField(s) == Decoded(Padding(1), 1)
    ensures DecodeField(s).Decoded? && DecodeField(s).next == 1 ==> s == [0]
  {
    if s == [0] {
      assert EncodeField(Padding(1)) == [0];
      FieldOfPrinted(Padding(1), []);
      assert [0] + [] == s;
    } else if DecodeField(s).Decoded? {
      FieldFaithful(s);
    }
    hide DecodeField;
  }

  lemma FieldCountCons(s: seq<Byte>, f: Field, n: nat, r: Parsed)
    requires Faithful(s, f, n) && !f.Padding? && (n == |s| ==> r.fields == [])
    requires 2 * |r.fields| <= r.consumed + 1
    requires 2 * |r.fields| > r.consumed <==> AllTwoBytesThenLoneZero(r.fields)
    ensures var r' := r.After([f], n);
            && 2 * |r'.fields| <= r'.consumed + 1
            && (2 * |r'.fields| > r'.consumed <==> AllTwoBytesThenLoneZero(r'.fields))
  {
    TwoByteFields(f);
    hide EncodeField, HasZeroLength, IsCutOff;
    var fields := [f] + r.fields;
    if AllTwoBytesThenLoneZero(fields) {
      assert fields[0] == f && fields[1..] == r.fields;
    }
    assert forall i :: 0 <= i < |r.fields| ==> fields[i + 1] == r.fields[i];
  }

  /** The smallest blob that beats the two-byte rule. */
  lemma LoneZeroBeatsTwoBytes()
    ensures Decode([0]) == Parsed([Padding(1)], 1, 1, None)
  {
    assert EncodeField(Padding(1)) == [0];
    ForwardRoundTrip([Padding(1)]);
    assert Encode([Padding(1)]) == [0];
  }
}
