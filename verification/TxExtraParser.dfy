/**
 * The parser and the printer as they run: one cursor moving through the blob, loops that count,
 * and a result built up field by field.
 */
module TxExtraParser {
  import opened Words
  import opened Varint
  import opened TxExtra
  import opened RoundTrip

  /** Bytes left after pos. */
  function Remaining(len: nat, pos: nat): nat {
    Max(len - pos, 0)
  }

  function TakeHash(buf: seq<Byte>, pos: nat): Option<(Hash32, nat)> {
    if pos + HASH_LEN <= |buf| then Some((buf[pos..pos + HASH_LEN], pos + HASH_LEN)) else None
  }

  lemma Suffixes(s: seq<Byte>, a: nat, b: nat)
    requires a + b <= |s|
    ensures s[a..][b..] == s[a + b..]
    ensures |s[a..]| == |s| - a
    ensures forall i :: a <= i < |s| ==> s[a..][i - a] == s[i]
  {
  }

  lemma SuffixSlice(s: seq<Byte>, a: nat, b: nat, c: nat)
    requires b <= c && a + c <= |s|
    ensures s[a..][b..c] == s[a + b..a + c]
  {
  }

  /** Tag 00: `for size in 1..=255`, stopping at the end of the blob or at a non-zero byte. */
  method ParsePadding(extra: seq<Byte>, start: nat) returns (r: FieldResult)
    requires start < |extra|
    ensures r == DecodePadding(extra[start..]).Shifted(start)
  {
    var pos, size := start + 1, 1;
    ghost var zeros := LeadingZeros(extra[start + 1..]);
    Suffixes(extra, start, 1);
    while size <= PADDING_MAX_COUNT
      invariant 1 <= size <= PADDING_MAX_COUNT + 1 && pos == start + size <= |extra|
      invariant zeros == size - 1 + LeadingZeros(extra[pos..])
    {
      if pos >= |extra| {
        break;
      }
      Suffixes(extra, pos, 1);
      var byte := extra[pos];
      if byte != 0 {
        return Failed(ParseError(pos, PaddingNonZero));
      }
      pos, size := pos + 1, size + 1;
    }
    if size > PADDING_MAX_COUNT {
      return Failed(ParseError(pos, PaddingTooLong));
    }
    r := Decoded(Padding(size), pos);
  }

  /** The length-prefixed bytes of tags 02, de and 03, down to the check of the varint itself. */
  method ParseFrame(extra: seq<Byte>, start: nat) returns (f: Frame)
    requires start < |extra|
    ensures f == DecodeFrame(extra[start..]).Shifted(start)
  {
    var len, pos, status := ReadVarint(extra, start + 1);
    Suffixes(extra, start, 1);
    hide Scan;
    var good := status.IsGood();
    var avail := if good then Remaining(|extra|, pos) else 0;
    if avail < len {
      return Unframed(ParseError(pos, LengthBeyondEnd));
    }
    var end := pos + len;
    if !good {
      return Unframed(ParseError(end, BadVarint));
    }
    SuffixSlice(extra, start, pos - start, end - start);
    f := Framed(extra[pos..end], end);
  }

  method ParseNonceOrMinerGate(extra: seq<Byte>, start: nat) returns (r: FieldResult)
    requires start < |extra|
    ensures extra[start] == TAG_NONCE ==> r == DecodeNonce(extra[start..]).Shifted(start)
    ensures extra[start] != TAG_NONCE ==> r == DecodeMinerGate(extra[start..]).Shifted(start)
  {
    var frame := ParseFrame(extra, start);
    hide DecodeFrame;
    match frame {
      case Unframed(e) => return Failed(e);
      case Framed(data, next) =>
        if extra[start] == TAG_NONCE {
          if |data| > NONCE_MAX_COUNT {
            return Failed(ParseError(next, NonceTooLong));
          }
          r := Decoded(Nonce(data), next);
        } else {
          r := Decoded(MinerGate(data), next);
        }
    }
  }

  /** A second, independent cursor over the framed bytes, which has to use them all up. */
  method ParseMergeMining(extra: seq<Byte>, start: nat) returns (r: FieldResult)
    requires start < |extra|
    ensures r == DecodeMergeMining(extra[start..]).Shifted(start)
  {
    var frame := ParseFrame(extra, start);
    hide DecodeFrame;
    match frame {
      case Unframed(e) => return Failed(e);
      case Framed(inner, next) =>
        var blob := ParseBlob(inner);
        hide DecodeBlob;
        match blob {
          case None => r := Failed(ParseError(next, MergeMiningBlob));
          case Some((depth, root)) => r := Decoded(MergeMining(depth, root), next);
        }
    }
  }

  method ParseBlob(inner: seq<Byte>) returns (r: Option<(U64, Hash32)>)
    ensures r == DecodeBlob(inner)
  {
    var depth, innerPos, status := ReadVarint(inner, 0);
    assert inner[0..] == inner;
    hide Scan;
    if !status.IsGood() {
      return None;
    }
    var taken := TakeHash(inner, innerPos);
    if taken.None? {
      return None;
    }
    var Some((root, end)) := taken;
    if end != |inner| {
      return None;
    }
    assert inner[innerPos..] == inner[innerPos..end];
    r := Some((depth, root));
  }

  /** Tag 04: the count is held against the bytes left, then the keys are taken one by one. */
  method ParseAdditional(extra: seq<Byte>, start: nat) returns (r: FieldResult)
    requires start < |extra|
    ensures r == DecodeAdditional(extra[start..]).Shifted(start)
  {
    var count, pos, status := ReadVarint(extra, start + 1);
    Suffixes(extra, start, 1);
    Suffixes(extra, start, pos - start);
    hide Scan, Keys;
    if !status.IsGood() {
      return Failed(ParseError(pos, BadVarint));
    }
    if Remaining(|extra|, pos) < count {
      return Failed(ParseError(pos, LengthBeyondEnd));
    }
    r := ParseKeys(extra, pos, count);
  }

  /** `count` keys of 32 bytes, failing on the first that does not fit. */
  method ParseKeys(extra: seq<Byte>, start: nat, count: nat) returns (r: FieldResult)
    requires start <= |extra|
    ensures r == if |extra| - start < 32 * count then
                   Failed(ParseError(start + 32 * ((|extra| - start) / 32), TruncatedAdditionalKeys))
                 else
                   Decoded(AdditionalPubKeys(Keys(extra[start..], count)), start + 32 * count)
  {
    var keys: seq<Hash32>, pos := [], start;
    for i := 0 to count
      invariant pos == start + 32 * i <= |extra|
      invariant keys == Keys(extra[start..], i)
    {
      match TakeHash(extra, pos) {
        case None =>
          WholeKeys(|extra| - start, i);
          return Failed(ParseError(pos, TruncatedAdditionalKeys));
        case Some((key, next)) =>
          SuffixSlice(extra, start, 32 * i, 32 * i + 32);
          KeysGrow(extra[start..], i);
          keys, pos := keys + [key], next;
      }
    }
    r := Decoded(AdditionalPubKeys(keys), pos);
  }

  lemma WholeKeys(avail: nat, i: nat)
    requires 32 * i <= avail < 32 * i + 32
    ensures avail / 32 == i
  {
  }

  lemma {:induction false} KeysGrow(s: seq<Byte>, n: nat)
    requires 32 * (n + 1) <= |s|
    ensures Keys(s, n + 1) == Keys(s, n) + [s[32 * n..32 * n + 32]]
    decreases n
  {
    if n == 0 {
      assert Keys(s[32..], 0) == [];
    } else {
      KeysGrow(s[32..], n - 1);
      SuffixSlice(s, 32, 32 * (n - 1), 32 * n);
      var first, last := s[..32], s[32 * n..32 * n + 32];
      assert Keys(s, n + 1) == [first] + Keys(s[32..], n);
      assert Keys(s, n) == [first] + Keys(s[32..], n - 1);
      hide Keys;
      assert [first] + (Keys(s[32..], n - 1) + [last]) == ([first] + Keys(s[32..], n - 1)) + [last];
    }
  }

  /** The field whose tag byte is at `start`, and the position just past it. */
  method ParseField(extra: seq<Byte>, start: nat) returns (r: FieldResult)
    requires start < |extra|
    ensures r == DecodeField(extra[start..]).Shifted(start)
  {
    hide DecodePadding, DecodePubKey, DecodeNonce, DecodeMinerGate, DecodeMergeMining, DecodeAdditional;
    var tag := extra[start];
    Suffixes(extra, start, 0);
    if tag == TAG_PADDING {
      r := ParsePadding(extra, start);
    } else if tag == TAG_PUBKEY {
      r := ParsePubKey(extra, start);
    } else if tag == TAG_NONCE || tag == TAG_MINERGATE {
      r := ParseNonceOrMinerGate(extra, start);
    } else if tag == TAG_MERGE_MINING {
      r := ParseMergeMining(extra, start);
    } else if tag == TAG_ADDITIONAL_PUBKEYS {
      r := ParseAdditional(extra, start);
    } else {
      r := Failed(ParseError(start, UnknownTag(tag)));
    }
  }

  method ParsePubKey(extra: seq<Byte>, start: nat) returns (r: FieldResult)
    requires start < |extra|
    ensures r == DecodePubKey(extra[start..]).Shifted(start)
  {
    match TakeHash(extra, start + 1) {
      case None => r := Failed(ParseError(start + 1, TruncatedPubKey));
      case Some((key, next)) =>
        SuffixSlice(extra, start, 1, 33);
        r := Decoded(PubKey(key), next);
    }
  }

  /** What is decoded so far, then the rest of the blob, is the whole. */
  ghost predicate Accounts(extra: seq<Byte>, fields: seq<Field>, pos: nat)
    requires pos <= |extra|
  {
    Decode(extra) == Decode(extra[pos..]).After(fields, pos)
  }

  lemma AccountsStart(extra: seq<Byte>)
    ensures Accounts(extra, [], 0)
  {
    hide Decode;
    assert extra[0..] == extra;
    assert [] + Decode(extra).fields == Decode(extra).fields;
  }

  lemma AccountsStep(extra: seq<Byte>, fields: seq<Field>, pos: nat)
    requires pos < |extra| && Accounts(extra, fields, pos)
    ensures var d := DecodeField(extra[pos..]);
            && (d.Failed? ==> Decode(extra) == Parsed(fields, |extra|, pos, Some(d.error.Shifted(pos))))
            && (d.Decoded? ==> 1 <= d.next <= |extra| - pos)
            && (d.Decoded? ==> Accounts(extra, fields + [d.field], pos + d.next))
  {
    var left := extra[pos..];
    hide Decode, DecodeField;
    DecodeUnfolds(left);
    var d := DecodeField(left);
    if d.Decoded? {
      Suffixes(extra, pos, d.next);
      AfterAfter(Decode(left[d.next..]), [d.field], d.next, fields, pos);
    } else {
      assert fields + [] == fields;
    }
  }

  lemma AccountsEnd(extra: seq<Byte>, fields: seq<Field>)
    requires Accounts(extra, fields, |extra|)
    ensures Decode(extra) == Parsed(fields, |extra|, |extra|, None)
  {
    assert extra[|extra|..] == [];
    assert fields + [] == fields;
  }

  lemma DecodeUnfolds(s: seq<Byte>)
    requires s != []
    ensures var d := DecodeField(s);
            && (d.Failed? ==> Decode(s) == Parsed([], |s|, 0, Some(d.error)))
            && (d.Decoded? ==> 1 <= d.next <= |s| && Decode(s) == Decode(s[d.next..]).After([d.field], d.next))
  {
    hide DecodeField;
  }

  /** Every field up to the first that fails; the failure is part of the answer. */
  method Parse(extra: seq<Byte>) returns (out: Parsed)
    ensures out == Decode(extra)
  {
    hide DecodeField, Decode, Accounts;
    var fields: seq<Field>, pos := [], 0;
    AccountsStart(extra);
    while pos < |extra|
      invariant pos <= |extra| && Accounts(extra, fields, pos)
      decreases |extra| - pos
    {
      var r := ParseField(extra, pos);
      AccountsStep(extra, fields, pos);
      match r {
        case Failed(e) =>
          return Parsed(fields, |extra|, pos, Some(e));
        case Decoded(field, next) =>
          assert next > pos;
          pos, fields := next, fields + [field];
      }
    }
    AccountsEnd(extra, fields);
    out := Parsed(fields, |extra|, pos, None);
  }

  // ---------------------------------------------------------------- printing

  /** Lengths that a u64 can count, as every buffer in memory has. */
  predicate Countable(f: Field) {
    match f
    case Nonce(data) => |data| < U64_LIMIT
    case MinerGate(data) => |data| < U64_LIMIT
    case AdditionalPubKeys(keys) => |keys| < U64_LIMIT
    case _ => true
  }

  method EncodeFields(fields: seq<Field>) returns (out: seq<Byte>)
    requires forall i :: 0 <= i < |fields| ==> Countable(fields[i])
    ensures out == Encode(fields)
  {
    out := [];
    for i := 0 to |fields|
      invariant out == Encode(fields[..i])
    {
      hide Encode, EncodePayload;
      EncodeGrows(fields, i);
      out := PushField(fields[i], out);
    }
    assert fields[..|fields|] == fields;
  }

  lemma EncodeGrows(fields: seq<Field>, i: nat)
    requires i < |fields|
    ensures Encode(fields[..i + 1]) == Encode(fields[..i]) + EncodeField(fields[i])
  {
    assert fields[..i + 1] == fields[..i] + [fields[i]];
    EncodeAppends(fields[..i], [fields[i]]);
    EncodeCons(fields[i], []);
    assert [fields[i]] + [] == [fields[i]];
    assert EncodeField(fields[i]) + [] == EncodeField(fields[i]);
  }

  method PushField(f: Field, out: seq<Byte>) returns (grown: seq<Byte>)
    requires Countable(f)
    ensures grown == out + EncodeField(f)
  {
    hide EncodeVarint, EncodeKeys;
    grown := out + [f.Tag()];
    match f {
      case Padding(size) =>
        grown := grown + Repeat(0, Max(size - 1, 0));
      case PubKey(key) =>
        grown := grown + key;
      case Nonce(data) =>
        grown := PushVarint(|data|, grown);
        grown := grown + data;
      case MinerGate(data) =>
        grown := PushVarint(|data|, grown);
        grown := grown + data;
      case MergeMining(depth, root) =>
        var width := VarintLen(depth);
        VarintBijection([], depth, 0);
        grown := PushVarint(width + HASH_LEN, grown);
        grown := PushVarint(depth, grown);
        grown := grown + root;
      case AdditionalPubKeys(keys) =>
        grown := PushVarint(|keys|, grown);
        grown := PushKeys(keys, grown);
    }
  }

  method PushKeys(keys: seq<Hash32>, out: seq<Byte>) returns (grown: seq<Byte>)
    ensures grown == out + EncodeKeys(keys)
  {
    grown := out;
    for i := 0 to |keys|
      invariant grown + EncodeKeys(keys[i..]) == out + EncodeKeys(keys)
    {
      assert keys[i..][1..] == keys[i + 1..];
      assert (grown + keys[i]) + EncodeKeys(keys[i + 1..]) == grown + (keys[i] + EncodeKeys(keys[i + 1..]));
      grown := grown + keys[i];
    }
    assert EncodeKeys(keys[|keys|..]) == [];
  }
}
