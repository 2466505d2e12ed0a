/**
 * The tx_extra decoder and the canonical printer are inverse to each other, on every blob and
 * every printable list of fields, up to one kind of tail.
 */
module RoundTrip {
  import opened Words
  import opened Varint
  import opened TxExtra

  // ---------------------------------------------------------------- printing, then reading

  /** A printed varint reads back whatever follows it. */
  lemma ScanOfPrefix(v: U64, t: seq<Byte>)
    ensures var n := |EncodeVarint(v)|; Scan(EncodeVarint(v) + t, 0) == Reading(v, n, Complete(n))
  {
    RoomIsU64();
    ScanOfEncoding(v, 0, t);
  }

  /** Cutting a concatenation where it was joined. */
  lemma Cut<T>(a: seq<T>, b: seq<T>)
    ensures (a + b)[..|a|] == a && (a + b)[|a|..] == b
  {
  }

  lemma CutAfterTag(s: seq<Byte>, a: seq<Byte>, b: seq<Byte>, c: seq<Byte>)
    requires s != [] && s[1..] == a + (b + c)
    ensures |s| == 1 + |a| + |b| + |c|
    ensures s[1 + |a|..] == b + c
    ensures s[1 + |a|..1 + |a| + |b|] == b
  {
    Cut(a, b + c);
    Cut(b, c);
    assert s[1 + |a|..] == s[1..][|a|..];
    assert s[1 + |a|..1 + |a| + |b|] == s[1 + |a|..][..|b|];
  }

  lemma FrameOfParts(s: seq<Byte>, e: seq<Byte>, data: seq<Byte>, t: seq<Byte>)
    requires s != [] && s[1..] == e + (data + t)
    requires Scan(s[1..], 0) == Reading(|data|, |e|, Complete(|e|)) && |e| >= 1
    ensures DecodeFrame(s) == Framed(data, |s| - |t|)
  {
    CutAfterTag(s, e, data, t);
  }

  lemma FrameOfPrinted(s: seq<Byte>, data: seq<Byte>, t: seq<Byte>)
    requires |data| < U64_LIMIT
    requires s != [] && s[1..] == EncodeVarint(|data|) + (data + t)
    ensures DecodeFrame(s) == Framed(data, |s| - |t|)
  {
    ScanOfPrefix(|data|, data + t);
    FrameOfParts(s, EncodeVarint(|data|), data, t);
  }

  lemma BlobOfPrinted(depth: U64, root: Hash32)
    ensures DecodeBlob(EncodeVarint(depth) + root) == Some((depth, root))
  {
    ScanOfPrefix(depth, root);
    var e := EncodeVarint(depth);
    assert (e + root)[|e|..] == root;
  }

  lemma {:induction false} KeysOfPrinted(keys: seq<Hash32>, t: seq<Byte>)
    ensures |EncodeKeys(keys)| == 32 * |keys|
    ensures Keys(EncodeKeys(keys) + t, |keys|) == keys
  {
    if keys != [] {
      KeysOfPrinted(keys[1..], t);
      var s := EncodeKeys(keys) + t;
      assert s[..32] == keys[0];
      assert s[32..] == EncodeKeys(keys[1..]) + t;
    }
  }

  lemma AdditionalOfParts(s: seq<Byte>, e: seq<Byte>, keys: seq<Hash32>, text: seq<Byte>, t: seq<Byte>)
    requires s != [] && s[1..] == e + (text + t)
    requires Scan(s[1..], 0) == Reading(|keys|, |e|, Complete(|e|)) && |e| >= 1
    requires |text| == 32 * |keys| && Keys(text + t, |keys|) == keys
    ensures DecodeAdditional(s) == Decoded(AdditionalPubKeys(keys), |s| - |t|)
  {
    hide *;
    var n, w := |keys|, |e|;
    assert |s| == 1 + w + 32 * n + |t| && s[1 + w..] == text + t by {
      CutAfterTag(s, e, text, t);
    }
    AdditionalOfCount(s, n, w);
  }

  /** With a whole count and room for that many keys, the other arms are out of the way. */
  lemma AdditionalOfCount(s: seq<Byte>, count: nat, w: nat)
    requires s != [] && Scan(s[1..], 0) == Reading(count, w, Complete(w)) && w >= 1
    requires 1 + w + 32 * count <= |s|
    ensures DecodeAdditional(s) == Decoded(AdditionalPubKeys(Keys(s[1 + w..], count)), 1 + w + 32 * count)
  {
    hide Scan, Keys;
  }

  lemma AdditionalOfPrinted(s: seq<Byte>, keys: seq<Hash32>, t: seq<Byte>)
    requires |keys| < U64_LIMIT
    requires s != [] && s[1..] == EncodeVarint(|keys|) + (EncodeKeys(keys) + t)
    ensures DecodeAdditional(s) == Decoded(AdditionalPubKeys(keys), |s| - |t|)
  {
    KeysOfPrinted(keys, t);
    ScanOfPrefix(|keys|, EncodeKeys(keys) + t);
    AdditionalOfParts(s, EncodeVarint(|keys|), keys, EncodeKeys(keys), t);
  }

  lemma {:induction false} ZerosOfRepeat(n: nat)
    ensures LeadingZeros(Repeat(0, n)) == n
  {
    if n != 0 {
      var s := Repeat(0, n);
      assert s[1..] == Repeat(0, n - 1);
      ZerosOfRepeat(n - 1);
    }
  }

  lemma PaddingOfPrinted(s: seq<Byte>, size: nat)
    requires 1 <= size <= PADDING_MAX_COUNT
    requires s != [] && s[1..] == Repeat(0, size - 1)
    ensures DecodePadding(s) == Decoded(Padding(size), |s|)
  {
    ZerosOfRepeat(size - 1);
  }

  lemma TailOfPrinted(tag: Byte, a: seq<Byte>, b: seq<Byte>, t: seq<Byte>)
    ensures (([tag] + a) + t)[0] == tag
    ensures (([tag] + a) + t)[1..] == a + t
    ensures (a + b) + t == a + (b + t)
  {
  }

  /** A printed field reads back, whatever follows it; nothing may follow padding. */
  lemma FieldOfPrinted(f: Field, t: seq<Byte>)
    requires Fits(f) && (f.Padding? ==> t == [])
    ensures DecodeField(EncodeField(f) + t) == Decoded(f, |EncodeField(f)|)
  {
    var s := EncodeField(f) + t;
    TailOfPrinted(f.Tag(), EncodePayload(f), [], t);
    match f {
      case Padding(size) =>
        PaddingOfPrinted(s, size);
      case PubKey(key) =>
        assert s[1..33] == key;
      case Nonce(data) =>
        TailOfPrinted(TAG_NONCE, EncodeVarint(|data|), data, t);
        FrameOfPrinted(s, data, t);
      case MinerGate(data) =>
        TailOfPrinted(TAG_MINERGATE, EncodeVarint(|data|), data, t);
        FrameOfPrinted(s, data, t);
      case MergeMining(depth, root) =>
        MergeMiningOfPrinted(s, depth, root, t);
      case AdditionalPubKeys(keys) =>
        TailOfPrinted(TAG_ADDITIONAL_PUBKEYS, EncodeVarint(|keys|), EncodeKeys(keys), t);
        AdditionalOfPrinted(s, keys, t);
    }
  }

  lemma MergeMiningOfPrinted(s: seq<Byte>, depth: U64, root: Hash32, t: seq<Byte>)
    requires s == EncodeField(MergeMining(depth, root)) + t
    ensures DecodeMergeMining(s) == Decoded(MergeMining(depth, root), |s| - |t|)
  {
    var inner := EncodeVarint(depth) + root;
    VarintBijection([], depth, 0);
    TailOfPrinted(TAG_MERGE_MINING, EncodePayload(MergeMining(depth, root)), [], t);
    TailOfPrinted(TAG_MERGE_MINING, EncodeVarint(|inner|), inner, t);
    FrameOfPrinted(s, inner, t);
    BlobOfPrinted(depth, root);
  }

  /** Printing distributes over concatenation. */
  lemma {:induction false} EncodeAppends(a: seq<Field>, b: seq<Field>)
    ensures Encode(a + b) == Encode(a) + Encode(b)
  {
    hide EncodeField;
    if a == [] {
      assert a + b == b;
    } else {
      EncodeAppends(a[1..], b);
      assert (a + b)[1..] == a[1..] + b && (a + b)[0] == a[0];
      assert Encode(a + b) == EncodeField(a[0]) + Encode(a[1..] + b);
      assert Encode(a) == EncodeField(a[0]) + Encode(a[1..]);
      hide Encode;
      assert EncodeField(a[0]) + (Encode(a[1..]) + Encode(b)) == (EncodeField(a[0]) + Encode(a[1..])) + Encode(b);
    }
  }

  /** A blob that starts with a readable field reads as that field, then the rest. */
  lemma DecodeStep(text: seq<Byte>, left: seq<Byte>, f: Field)
    requires text != [] && DecodeField(text + left) == Decoded(f, |text|)
    ensures Decode(text + left) == Decode(left).After([f], |text|)
  {
    assert (text + left)[|text|..] == left;
  }

  /** A printed list with no padding is read off the front of anything. */
  lemma {:induction false} DecodeOfPrefix(fields: seq<Field>, t: seq<Byte>)
    requires WellFormed(fields)
    requires NoPadding(fields) || t == []
    ensures Decode(Encode(fields) + t) == Decode(t).After(fields, |Encode(fields)|)
  {
    if fields == [] {
      assert Encode(fields) + t == t;
      UnshiftedAfter(Decode(t));
    } else {
      var rest := fields[1..];
      assert WellFormed(rest) && (NoPadding(rest) || t == []);
      DecodeOfPrefix(rest, t);
      assert fields[0].Padding? ==> rest == [] && t == [];
      DecodeOfCons(fields[0], rest, t);
      assert [fields[0]] + rest == fields;
    }
  }

  lemma DecodeChain(f: Field, text: seq<Byte>, rest: seq<Field>, later: seq<Byte>, t: seq<Byte>)
    requires text != [] && DecodeField(text + (later + t)) == Decoded(f, |text|)
    requires Decode(later + t) == Decode(t).After(rest, |later|)
    ensures Decode(text + (later + t)) == Decode(t).After([f] + rest, |text| + |later|)
  {
    hide *;
    DecodeStep(text, later + t, f);
    AfterAfter(Decode(t), rest, |later|, [f], |text|);
  }

  lemma DecodeOfCons(f: Field, rest: seq<Field>, t: seq<Byte>)
    requires Fits(f) && (f.Padding? ==> rest == [] && t == [])
    requires Decode(Encode(rest) + t) == Decode(t).After(rest, |Encode(rest)|)
    ensures Decode(Encode([f] + rest) + t) == Decode(t).After([f] + rest, |Encode([f] + rest)|)
  {
    hide Decode, DecodeField, Scan;
    assert rest == [] ==> Encode(rest) == [];
    EncodeCons(f, rest);
    FieldOfPrinted(f, Encode(rest) + t);
    DecodeChain(f, EncodeField(f), rest, Encode(rest), t);
    TailOfPrinted(0, EncodeField(f), Encode(rest), t);
  }

  lemma EncodeCons(f: Field, rest: seq<Field>)
    ensures Encode([f] + rest) == EncodeField(f) + Encode(rest)
  {
    assert ([f] + rest)[1..] == rest;
  }

  lemma UnshiftedAfter(r: Parsed)
    ensures r.After([], 0) == r
  {
    assert [] + r.fields == r.fields;
  }

  lemma AfterAfter(r: Parsed, a: seq<Field>, m: nat, b: seq<Field>, n: nat)
    ensures r.After(a, m).After(b, n) == r.After(b + a, n + m)
  {
    assert b + (a + r.fields) == (b + a) + r.fields;
  }

  /** Whatever can be printed reads back whole, as it was. */
  lemma ForwardRoundTrip(fields: seq<Field>)
    requires WellFormed(fields)
    ensures Decode(Encode(fields)) == Parsed(fields, |Encode(fields)|, |Encode(fields)|, None)
  {
    DecodeOfPrefix(fields, []);
    assert Encode(fields) + [] == Encode(fields);
    assert fields + [] == fields;
  }

  // ---------------------------------------------------------------- reading, then printing

  /** Fields printed as their tag and a zero length: the ones a cut-off varint can stand for. */
  predicate HasZeroLength(f: Field) {
    f == Nonce([]) || f == MinerGate([]) || f == AdditionalPubKeys([])
  }

  /** A tag and a length varint of one to nine 0x80 bytes that the end of the blob cut off. */
  predicate IsCutOff(s: seq<Byte>, f: Field) {
    HasZeroLength(f) && 2 <= |s| <= 10 && s == [f.Tag()] + Repeat(0x80, |s| - 1)
  }

  lemma FrameText(s: seq<Byte>)
    requires s != [] && DecodeFrame(s).Framed?
    ensures var Framed(data, n) := DecodeFrame(s);
            || s[1..n] == EncodeVarint(|data|) + data
            || (data == [] && n == |s| && 2 <= |s| <= 10 && s[1..] == Repeat(0x80, |s| - 1))
  {
    var r := Scan(s[1..], 0);
    var Framed(data, n) := DecodeFrame(s);
    hide Scan;
    if r.status.Complete? {
      EncodingOfScan(s[1..], 0);
      assert s[1..n] == s[1..][..r.next] + data;
    } else {
      TruncatedScan(s[1..], 0);
    }
  }

  lemma BlobText(inner: seq<Byte>)
    requires DecodeBlob(inner).Some?
    ensures var Some((depth, root)) := DecodeBlob(inner); inner == EncodeVarint(depth) + root
  {
    var r := Scan(inner, 0);
    hide Scan;
    if r.status.Complete? {
      EncodingOfScan(inner, 0);
      assert inner == inner[..r.next] + inner[r.next..];
    } else {
      TruncatedScan(inner, 0);
    }
  }

  lemma {:induction false} KeysText(s: seq<Byte>, n: nat)
    requires 32 * n <= |s|
    ensures EncodeKeys(Keys(s, n)) == s[..32 * n]
    decreases n
  {
    if n != 0 {
      KeysText(s[32..], n - 1);
      assert s[..32 * n] == s[..32] + s[32..][..32 * (n - 1)];
    }
  }

  lemma AdditionalText(s: seq<Byte>)
    requires s != [] && DecodeAdditional(s).Decoded?
    ensures var Decoded(f, n) := DecodeAdditional(s);
            && f.AdditionalPubKeys? && |f.keys| < U64_LIMIT && 2 <= n <= |s|
            && (|| s[1..n] == EncodeVarint(|f.keys|) + EncodeKeys(f.keys)
                || (f.keys == [] && n == |s| && |s| <= 10 && s[1..] == Repeat(0x80, |s| - 1)))
  {
    var r := Scan(s[1..], 0);
    var Decoded(f, n) := DecodeAdditional(s);
    RoomIsU64();
    hide Scan;
    if r.status.Complete? {
      EncodingOfScan(s[1..], 0);
      KeysText(s[1 + r.next..], r.value);
      assert s[1..n] == s[1..][..r.next] + s[1 + r.next..][..32 * r.value];
    } else {
      TruncatedScan(s[1..], 0);
    }
  }

  /** A tag and a payload make a field's text. */
  lemma TextOfField(s: seq<Byte>, n: nat, f: Field)
    requires 1 <= n <= |s| && s[0] == f.Tag() && s[1..n] == EncodePayload(f)
    ensures s[..n] == EncodeField(f)
  {
    assert s[..n] == [s[0]] + s[1..n];
  }

  /** What holds of a decoded field whose text is the first n bytes of s. */
  ghost predicate Faithful(s: seq<Byte>, f: Field, n: nat) {
    && 1 <= n <= |s|
    && Fits(f)
    && (f.Padding? ==> n == |s|)
    && (n == 1 ==> f == Padding(1))
    && (s[..n] == EncodeField(f) || (n == |s| && IsCutOff(s, f)))
  }

  lemma PaddingFaithful(s: seq<Byte>)
    requires s != [] && s[0] == TAG_PADDING && DecodePadding(s).Decoded?
    ensures Faithful(s, DecodePadding(s).field, DecodePadding(s).next)
  {
    assert s[1..] == Repeat(0, |s| - 1);
    TextOfField(s, |s|, Padding(|s|));
  }

  lemma PubKeyFaithful(s: seq<Byte>)
    requires s != [] && s[0] == TAG_PUBKEY && DecodePubKey(s).Decoded?
    ensures Faithful(s, DecodePubKey(s).field, DecodePubKey(s).next)
  {
    TextOfField(s, 33, PubKey(s[1..33]));
  }

  lemma CutOffText(s: seq<Byte>, f: Field)
    requires HasZeroLength(f) && 2 <= |s| <= 10 && s[0] == f.Tag() && s[1..] == Repeat(0x80, |s| - 1)
    ensures IsCutOff(s, f)
  {
    assert s == [s[0]] + s[1..];
  }

  lemma NonceFaithful(s: seq<Byte>)
    requires s != [] && s[0] == TAG_NONCE && DecodeNonce(s).Decoded?
    ensures Faithful(s, DecodeNonce(s).field, DecodeNonce(s).next)
  {
    var Decoded(f, n) := DecodeNonce(s);
    FrameText(s);
    hide DecodeFrame;
    if s[1..n] == EncodePayload(f) {
      TextOfField(s, n, f);
    } else {
      CutOffText(s, f);
    }
  }

  lemma MinerGateFaithful(s: seq<Byte>)
    requires s != [] && s[0] == TAG_MINERGATE && DecodeMinerGate(s).Decoded?
    ensures Faithful(s, DecodeMinerGate(s).field, DecodeMinerGate(s).next)
  {
    var Decoded(f, n) := DecodeMinerGate(s);
    FrameText(s);
    hide DecodeFrame;
    if s[1..n] == EncodePayload(f) {
      TextOfField(s, n, f);
    } else {
      CutOffText(s, f);
    }
  }

  /** An empty blob has no root, so a cut-off length never makes a merge-mining field. */
  lemma MergeMiningFaithful(s: seq<Byte>)
    requires s != [] && s[0] == TAG_MERGE_MINING && DecodeMergeMining(s).Decoded?
    ensures Faithful(s, DecodeMergeMining(s).field, DecodeMergeMining(s).next)
  {
    var Decoded(f, n) := DecodeMergeMining(s);
    var inner := DecodeFrame(s).data;
    FrameText(s);
    BlobText(inner);
    hide DecodeFrame, DecodeBlob;
    assert inner == EncodeVarint(f.depth) + f.merkleRoot;
    TextOfField(s, n, f);
  }

  lemma AdditionalFaithful(s: seq<Byte>)
    requires s != [] && s[0] == TAG_ADDITIONAL_PUBKEYS && DecodeAdditional(s).Decoded?
    ensures Faithful(s, DecodeAdditional(s).field, DecodeAdditional(s).next)
  {
    var Decoded(f, n) := DecodeAdditional(s);
    AdditionalText(s);
    hide DecodeAdditional;
    if s[1..n] == EncodePayload(f) {
      TextOfField(s, n, f);
    } else {
      CutOffText(s, f);
    }
  }

  lemma FieldFaithful(s: seq<Byte>)
    requires s != [] && DecodeField(s).Decoded?
    ensures Faithful(s, DecodeField(s).field, DecodeField(s).next)
  {
    hide Faithful, DecodePadding, DecodePubKey, DecodeNonce, DecodeMinerGate, DecodeMergeMining, DecodeAdditional;
    if s[0] == TAG_PADDING {
      PaddingFaithful(s);
    } else if s[0] == TAG_PUBKEY {
      PubKeyFaithful(s);
    } else if s[0] == TAG_NONCE {
      NonceFaithful(s);
    } else if s[0] == TAG_MERGE_MINING {
      MergeMiningFaithful(s);
    } else if s[0] == TAG_ADDITIONAL_PUBKEYS {
      AdditionalFaithful(s);
    } else if s[0] == TAG_MINERGATE {
      MinerGateFaithful(s);
    }
  }
}
