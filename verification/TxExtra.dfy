/**
 * The tx_extra blob: a flat run of `tag byte || payload` fields, decoded best effort.
 *
 * DecodeField and Decode say what a blob means, reading it from the front; the cursor-moving parser
 * and printer in TxExtraParser are proved to compute the same.
 */
module TxExtra {
  import opened Words
  import opened Varint

  const TAG_PADDING: Byte := 0x00
  const TAG_PUBKEY: Byte := 0x01
  const TAG_NONCE: Byte := 0x02
  const TAG_MERGE_MINING: Byte := 0x03
  const TAG_ADDITIONAL_PUBKEYS: Byte := 0x04
  const TAG_MINERGATE: Byte := 0xDE

  const NONCE_MAX_COUNT := 255
  const PADDING_MAX_COUNT := 255

  datatype Field =
    | Padding(size: nat)
    | PubKey(key: Hash32)
    | Nonce(nonce: seq<Byte>)
    | MergeMining(depth: U64, merkleRoot: Hash32)
    | AdditionalPubKeys(keys: seq<Hash32>)
    | MinerGate(blob: seq<Byte>)
  {
    function Tag(): Byte {
      match this
      case Padding(_) => TAG_PADDING
      case PubKey(_) => TAG_PUBKEY
      case Nonce(_) => TAG_NONCE
      case MergeMining(_, _) => TAG_MERGE_MINING
      case AdditionalPubKeys(_) => TAG_ADDITIONAL_PUBKEYS
      case MinerGate(_) => TAG_MINERGATE
    }
  }

  datatype ErrorKind =
    | UnknownTag(tag: Byte)
    | PaddingNonZero
    | PaddingTooLong
    | TruncatedPubKey
    | BadVarint
    | LengthBeyondEnd
    | NonceTooLong
    | MergeMiningBlob
    | TruncatedAdditionalKeys

  datatype ParseError = ParseError(offset: nat, kind: ErrorKind) {
    function Shifted(n: nat): ParseError {
      ParseError(n + offset, kind)
    }
  }

  /** One field and the length of its text, or why there is none. */
  datatype FieldResult = Decoded(field: Field, next: nat) | Failed(error: ParseError) {
    function Shifted(n: nat): FieldResult {
      match this
      case Decoded(f, next) => Decoded(f, n + next)
      case Failed(e) => Failed(e.Shifted(n))
    }
  }

  datatype Parsed = Parsed(fields: seq<Field>, inputLen: nat, consumed: nat, error: Option<ParseError>) {
    predicate IsComplete() {
      error.None?
    }

    /** The same outcome, with `front` decoded from n bytes before it. */
    function After(front: seq<Field>, n: nat): Parsed {
      Parsed(front + fields, n + inputLen, n + consumed,
             match error case None => None case Some(e) => Some(e.Shifted(n)))
    }
  }

  // ---------------------------------------------------------------- what a blob means

  function LeadingZeros(s: seq<Byte>): (z: nat)
    ensures z <= |s|
    ensures forall i :: 0 <= i < z ==> s[i] == 0
    ensures z < |s| ==> s[z] != 0
  {
    if s == [] || s[0] != 0 then 0 else 1 + LeadingZeros(s[1..])
  }

  /** Padding runs to the end of the blob or fails; the tag byte counts towards its size. */
  function DecodePadding(s: seq<Byte>): FieldResult
    requires s != []
  {
    var z := LeadingZeros(s[1..]);
    if z >= PADDING_MAX_COUNT then Failed(ParseError(1 + PADDING_MAX_COUNT, PaddingTooLong))
    else if 1 + z < |s| then Failed(ParseError(1 + z, PaddingNonZero))
    else Decoded(Padding(1 + z), 1 + z)
  }

  function DecodePubKey(s: seq<Byte>): FieldResult
    requires s != []
  {
    if |s| < 1 + HASH_LEN then Failed(ParseError(1, TruncatedPubKey))
    else Decoded(PubKey(s[1..33]), 33)
  }

  /** A length varint after the tag, and that many bytes. */
  datatype Frame = Framed(data: seq<Byte>, next: nat) | Unframed(error: ParseError) {
    function Shifted(n: nat): Frame {
      match this
      case Framed(d, next) => Framed(d, n + next)
      case Unframed(e) => Unframed(e.Shifted(n))
    }
  }

  /** A varint that failed leaves no bytes to read, so only a zero length gets past the first test. */
  function DecodeFrame(s: seq<Byte>): (f: Frame)
    requires s != []
    ensures f.Framed? ==> 2 <= f.next <= |s| && |f.data| < U64_LIMIT
  {
    var r := Scan(s[1..], 0);
    var pos := 1 + r.next;
    var avail := if r.status.IsGood() then |s| - pos else 0;
    RoomIsU64();
    if avail < r.value then Unframed(ParseError(pos, LengthBeyondEnd))
    else if !r.status.IsGood() then Unframed(ParseError(pos, BadVarint))
    else Framed(s[pos..pos + r.value], pos + r.value)
  }

  function DecodeNonce(s: seq<Byte>): FieldResult
    requires s != []
  {
    match DecodeFrame(s)
    case Unframed(e) => Failed(e)
    case Framed(data, next) =>
      if |data| > NONCE_MAX_COUNT then Failed(ParseError(next, NonceTooLong))
      else Decoded(Nonce(data), next)
  }

  function DecodeMinerGate(s: seq<Byte>): FieldResult
    requires s != []
  {
    match DecodeFrame(s)
    case Unframed(e) => Failed(e)
    case Framed(data, next) => Decoded(MinerGate(data), next)
  }

  /** Depth varint and 32-byte root, consuming the blob exactly. */
  function DecodeBlob(inner: seq<Byte>): (r: Option<(U64, Hash32)>)
  {
    var r := Scan(inner, 0);
    RoomIsU64();
    if r.status.IsGood() && |inner| == r.next + HASH_LEN then Some((r.value, inner[r.next..])) else None
  }

  function DecodeMergeMining(s: seq<Byte>): FieldResult
    requires s != []
  {
    match DecodeFrame(s)
    case Unframed(e) => Failed(e)
    case Framed(inner, next) =>
      match DecodeBlob(inner)
      case None => Failed(ParseError(next, MergeMiningBlob))
      case Some((depth, root)) => Decoded(MergeMining(depth, root), next)
  }

  /** The first n groups of 32 bytes. */
  function Keys(s: seq<Byte>, n: nat): (keys: seq<Hash32>)
    requires 32 * n <= |s|
    ensures |keys| == n
    decreases n
  {
    if n == 0 then [] else [s[..32]] + Keys(s[32..], n - 1)
  }

  /** The count is of keys, but all that is checked against it up front is the bytes left. */
  function DecodeAdditional(s: seq<Byte>): FieldResult
    requires s != []
  {
    var r := Scan(s[1..], 0);
    var pos := 1 + r.next;
    if !r.status.IsGood() then Failed(ParseError(pos, BadVarint))
    else if |s| - pos < r.value then Failed(ParseError(pos, LengthBeyondEnd))
    else if |s| - pos < 32 * r.value then
      Failed(ParseError(pos + 32 * ((|s| - pos) / 32), TruncatedAdditionalKeys))
    else Decoded(AdditionalPubKeys(Keys(s[pos..], r.value)), pos + 32 * r.value)
  }

  /** The field at the front of s. */
  function DecodeField(s: seq<Byte>): (r: FieldResult)
    requires s != []
    ensures r.Decoded? ==> 1 <= r.next <= |s|
  {
    if s[0] == TAG_PADDING then DecodePadding(s)
    else if s[0] == TAG_PUBKEY then DecodePubKey(s)
    else if s[0] == TAG_NONCE then DecodeNonce(s)
    else if s[0] == TAG_MERGE_MINING then DecodeMergeMining(s)
    else if s[0] == TAG_ADDITIONAL_PUBKEYS then DecodeAdditional(s)
    else if s[0] == TAG_MINERGATE then DecodeMinerGate(s)
    else Failed(ParseError(0, UnknownTag(s[0])))
  }

  /** A whole blob: every field up to the first that fails. */
  function Decode(s: seq<Byte>): (r: Parsed)
    ensures r.inputLen == |s|
  {
    if s == [] then Parsed([], 0, 0, None)
    else
      match DecodeField(s)
      case Failed(e) => Parsed([], |s|, 0, Some(e))
      case Decoded(f, n) => Decode(s[n..]).After([f], n)
  }

  // ---------------------------------------------------------------- the canonical printer

  function EncodeKeys(keys: seq<Hash32>): seq<Byte> {
    if keys == [] then [] else keys[0] + EncodeKeys(keys[1..])
  }

  function EncodePayload(f: Field): seq<Byte> {
    match f
    case Padding(size) => Repeat(0, Max(size - 1, 0))
    case PubKey(key) => key
    case Nonce(data) => EncodeVarint(|data|) + data
    case MinerGate(data) => EncodeVarint(|data|) + data
    case MergeMining(depth, root) =>
      EncodeVarint(|EncodeVarint(depth)| + HASH_LEN) + (EncodeVarint(depth) + root)
    case AdditionalPubKeys(keys) => EncodeVarint(|keys|) + EncodeKeys(keys)
  }

  function EncodeField(f: Field): seq<Byte> {
    [f.Tag()] + EncodePayload(f)
  }

  function Encode(fields: seq<Field>): seq<Byte> {
    if fields == [] then [] else EncodeField(fields[0]) + Encode(fields[1..])
  }

  // ---------------------------------------------------------------- which lists are printable

  /** What a field has to satisfy to fit its own framing. */
  predicate Fits(f: Field) {
    match f
    case Padding(size) => 1 <= size <= PADDING_MAX_COUNT
    case Nonce(data) => |data| <= NONCE_MAX_COUNT
    case MinerGate(data) => |data| < U64_LIMIT
    case AdditionalPubKeys(keys) => |keys| < U64_LIMIT
    case _ => true
  }

  /** Every field fits, and padding, if there is any, comes last. */
  predicate WellFormed(fields: seq<Field>) {
    && (forall i :: 0 <= i < |fields| ==> Fits(fields[i]))
    && (forall i :: 0 <= i < |fields| - 1 ==> !fields[i].Padding?)
  }

  predicate NoPadding(fields: seq<Field>) {
    forall i :: 0 <= i < |fields| ==> !fields[i].Padding?
  }
}
