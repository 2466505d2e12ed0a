/**
 * The second implementation of the decoder: a Python model written separately from the C++
 * original.  Its integers are unbounded, its varint loop has no bound, its slices clamp, and it
 * gives up by returning False from the middle of the loop.
 */
module OracleModel {
  import opened Words
  import opened Varint
  import opened TxExtra
  import opened TxExtraParser

  datatype PyStatus = Ok | EofPartial | Empty | Overflowed | Represent

  /** buf[lo:hi]: bounds past the end are pulled back to it. */
  function Slice(buf: seq<Byte>, lo: nat, hi: nat): seq<Byte> {
    var a, b := Min(lo, |buf|), Min(hi, |buf|);
    if a <= b then buf[a..b] else []
  }

  function StatusOf(s: Status): PyStatus {
    match s
    case Complete(_) => Ok
    case TruncatedAtEof(n) => if n != 0 then EofPartial else Empty
    case Overflow => Overflowed
    case NonCanonical => Represent
  }

  /** Bytes read, or the negative code of a failure. */
  function CountOf(s: Status): int {
    match s
    case Complete(n) => n
    case TruncatedAtEof(n) => n
    case Overflow => -1
    case NonCanonical => -2
  }

  /** How the tuple (status, nread, value, newpos) answers to a reading of the bytes at `start`. */
  ghost predicate Answers(r: Reading, start: nat, status: PyStatus, read: int, write: nat, pos: nat) {
    status == StatusOf(r.status) && read == CountOf(r.status) && write == r.value && pos == start + r.next
  }

  /**
   * `while True` with a shift that grows by seven.  Nothing in the code bounds it, but a tenth
   * byte never continues, so the shift stays under 64 and `1 << (64 - shift)` is always defined.
   */
  method ReadVarint(buf: seq<Byte>, start: nat) returns (status: PyStatus, read: int, write: nat, pos: nat)
    requires start <= |buf|
    ensures read >= 1 <==> Scan(buf[start..], 0).status.IsGood()
    ensures Answers(Scan(buf[start..], 0), start, status, read, write, pos)
  {
    hide Scan, Folds;
    read, write, pos := 0, 0, start;
    var shift := 0;
    ghost var total := Scan(buf[start..], 0);
    FoldStart(buf[start..]);
    while true
      invariant 0 <= read <= 9 && shift == 7 * read
      invariant pos == start + read <= |buf|
      invariant write < Scaled(read, 1)
      invariant Folds(total, buf[pos..], read, write)
      decreases |buf| - pos
    {
      ghost var k, left, before := read, buf[pos..], write;
      FoldEnds(total, left, k, write);
      if pos >= |buf| {
        status := if read != 0 then EofPartial else Empty;
        return;
      }
      var byte := buf[pos];
      pos, read := pos + 1, read + 1;
      assert left[0] == byte && left[1..] == buf[pos..];
      TooBigIs(byte, k);
      if TooBig(byte, shift) {
        return Overflowed, -1, write, pos;
      }
      if byte == 0 && shift != 0 {
        return Represent, -2, write, pos;
      }
      assert k == 9 ==> byte == 1;
      write := OrLow(write, byte, shift, k);
      if byte < 128 {
        return Ok, read, write, pos;
      }
      FoldStep(total, left, k, before);
      shift := shift + 7;
    }
  }

  /** `write |= (byte & 0x7f) << shift`, on integers without a width. */
  method OrLow(write: nat, byte: Byte, shift: nat, ghost k: nat) returns (r: nat)
    requires k <= 9 && shift == 7 * k
    requires write < Scaled(k, 1) && (k == 9 ==> byte == 1)
    ensures r == write + Scaled(k, byte % 128) < Scaled(k + 1, 1)
    ensures byte < 128 ==> r == write + Scaled(k, byte)
  {
    hide Scaled, Room, BitOr, Pow2;
    RoomIs(k);
    ScaledIsShift(k, byte % 128);
    ScaledIsShift(k, 1);
    assert byte % 128 < Room(k);
    GroupBounds(write, byte % 128, k);
    OrAboveIsPlus(write, byte % 128, shift, Scaled(k, byte % 128));
    r := BitOr(write, (byte % 128) * Pow2(shift));
  }

  /** A field and the new position, or the False that ends the parse. */
  type Step = Option<(Field, nat)>

  /** How one turn of the loop answers to the field at `start`. */
  ghost predicate Agrees(step: Step, r: FieldResult, start: nat) {
    step == match r case Decoded(f, next) => Some((f, start + next)) case Failed(_) => None
  }

  method Padding(extra: seq<Byte>, start: nat) returns (step: Step)
    requires start < |extra|
    ensures Agrees(step, DecodePadding(extra[start..]), start)
  {
    var pos, size := start + 1, 1;
    ghost var zeros := LeadingZeros(extra[start + 1..]);
    Suffixes(extra, start, 1);
    while size <= 255
      invariant 1 <= size <= 256 && pos == start + size <= |extra|
      invariant zeros == size - 1 + LeadingZeros(extra[pos..])
    {
      if pos >= |extra| {
        break;
      }
      Suffixes(extra, pos, 1);
      var b := extra[pos];
      pos := pos + 1;
      if b != 0 {
        return None;
      }
      size := size + 1;
    }
    if size > 255 {
      return None;
    }
    step := Some((Field.Padding(size), pos));
  }

  method PubKey(extra: seq<Byte>, start: nat) returns (step: Step)
    requires start < |extra|
    ensures Agrees(step, DecodePubKey(extra[start..]), start)
  {
    var pos := start + 1;
    if |extra| - pos < 32 {
      return None;
    }
    SuffixSlice(extra, start, 1, 33);
    step := Some((Field.PubKey(Slice(extra, pos, pos + 32)), pos + 32));
  }

  /** The bytes behind a length varint, sliced before the varint's own status is looked at. */
  method Block(extra: seq<Byte>, start: nat) returns (data: Option<(seq<Byte>, nat)>)
    requires start < |extra|
    ensures var f := DecodeFrame(extra[start..]);
            data == if f.Framed? then Some((f.data, start + f.next)) else None
  {
    var status, nread, ln, pos := ReadVarint(extra, start + 1);
    Suffixes(extra, start, 1);
    hide Scan;
    var good := nread >= 1;
    var remaining := if good then |extra| - pos else 0;
    if remaining < ln {
      return None;
    }
    var bytes := Slice(extra, pos, pos + ln);
    if !good {
      return None;
    }
    SuffixSlice(extra, start, pos - start, pos - start + ln);
    data := Some((bytes, pos + ln));
  }

  method NonceOrGate(extra: seq<Byte>, start: nat) returns (step: Step)
    requires start < |extra|
    ensures extra[start] == 0x02 ==> Agrees(step, DecodeNonce(extra[start..]), start)
    ensures extra[start] != 0x02 ==> Agrees(step, DecodeMinerGate(extra[start..]), start)
  {
    var block := Block(extra, start);
    hide DecodeFrame;
    match block {
      case None => step := None;
      case Some((data, pos)) =>
        if extra[start] == 0x02 {
          if |data| > 255 {
            return None;
          }
          step := Some((Nonce(data), pos));
        } else {
          step := Some((MinerGate(data), pos));
        }
    }
  }

  method MergeMiningTag(extra: seq<Byte>, start: nat) returns (step: Step)
    requires start < |extra|
    ensures Agrees(step, DecodeMergeMining(extra[start..]), start)
  {
    var block := Block(extra, start);
    hide DecodeFrame;
    match block {
      case None => step := None;
      case Some((inner, pos)) =>
        var blob := Inner(inner);
        hide DecodeBlob;
        match blob {
          case None => step := None;
          case Some((depth, root)) => step := Some((MergeMining(depth, root), pos));
        }
    }
  }

  method Inner(inner: seq<Byte>) returns (r: Option<(U64, Hash32)>)
    ensures r == DecodeBlob(inner)
  {
    var status, inread, depth, ipos := ReadVarint(inner, 0);
    assert inner[0..] == inner;
    RoomIsU64();
    if inread < 1 {
      return None;
    }
    hide Scan;
    if |inner| - ipos < 32 {
      return None;
    }
    var root := Slice(inner, ipos, ipos + 32);
    ghost var rest := inner[ipos..];
    ipos := ipos + 32;
    assert ipos == |inner| ==> root == rest;
    if ipos != |inner| {
      return None;
    }
    r := Some((depth, root));
  }

  method AdditionalKeys(extra: seq<Byte>, start: nat) returns (step: Step)
    requires start < |extra|
    ensures Agrees(step, DecodeAdditional(extra[start..]), start)
  {
    var status, nread, cnt, pos := ReadVarint(extra, start + 1);
    Suffixes(extra, start, 1);
    Suffixes(extra, start, pos - start);
    hide Scan;
    if nread < 1 {
      return None;
    }
    var remaining := |extra| - pos;
    if remaining < cnt {
      return None;
    }
    var keys: seq<Hash32>, first := [], pos;
    for i := 0 to cnt
      invariant pos == first + 32 * i <= |extra|
      invariant keys == Keys(extra[first..], i)
    {
      if |extra| - pos < 32 {
        return None;
      }
      SuffixSlice(extra, first, 32 * i, 32 * i + 32);
      KeysGrow(extra[first..], i);
      keys, pos := keys + [Slice(extra, pos, pos + 32)], pos + 32;
    }
    step := Some((AdditionalPubKeys(keys), pos));
  }

  method OneField(extra: seq<Byte>, start: nat) returns (step: Step)
    requires start < |extra|
    ensures Agrees(step, DecodeField(extra[start..]), start)
  {
    hide DecodePadding, DecodePubKey, DecodeNonce, DecodeMinerGate, DecodeMergeMining, DecodeAdditional;
    var tag := extra[start];
    Suffixes(extra, start, 0);
    if tag == 0x00 {
      step := Padding(extra, start);
    } else if tag == 0x01 {
      step := PubKey(extra, start);
    } else if tag == 0x02 || tag == 0xDE {
      step := NonceOrGate(extra, start);
    } else if tag == 0x03 {
      step := MergeMiningTag(extra, start);
    } else if tag == 0x04 {
      step := AdditionalKeys(extra, start);
    } else {
      step := None;
    }
  }

  /** The whole parse: a verdict, and the fields seen before it. */
  method Parse(extra: seq<Byte>) returns (ok: bool, fields: seq<Field>)
    ensures ok == Decode(extra).IsComplete() && fields == Decode(extra).fields
  {
    hide DecodeField, Accounts;
    fields := [];
    if |extra| == 0 {
      return true, fields;
    }
    hide Decode;
    AccountsStart(extra);
    var pos := 0;
    while true
      invariant pos < |extra| && Accounts(extra, fields, pos)
      decreases |extra| - pos
    {
      var step := OneField(extra, pos);
      AccountsStep(extra, fields, pos);
      match step {
        case None =>
          return false, fields;
        case Some((field, next)) =>
          pos, fields := next, fields + [field];
      }
      if pos >= |extra| {
        break;
      }
    }
    AccountsEnd(extra, fields);
    ok := true;
  }

  /** Run on the same blob, the two implementations give the same verdict and the same fields. */
  method Differential(extra: seq<Byte>) returns (rust: Parsed, ok: bool, fields: seq<Field>)
    ensures ok == rust.IsComplete() && fields == rust.fields
    ensures rust == Decode(extra)
  {
    rust := TxExtraParser.Parse(extra);
    ok, fields := Parse(extra);
  }
}
