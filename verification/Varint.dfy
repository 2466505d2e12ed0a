/**
 * The length varint of a tx_extra blob: unsigned LEB128 (section 7.6 of DWARF 5) over 64 bits,
 * with two deviations.  A zero continuation byte is refused, and a varint cut off by the end of
 * the buffer is accepted with whatever it had accumulated.
 */
module Varint {
  import opened Words

  datatype Status =
    | Complete(bytesRead: nat)
    | TruncatedAtEof(bytesRead: nat)
    | Overflow
    | NonCanonical
  {
    predicate IsGood() {
      match this
      case Complete(_) => true
      case TruncatedAtEof(n) => n >= 1
      case Overflow => false
      case NonCanonical => false
    }

    /** The same outcome, with k more bytes in front of it. */
    function After(k: nat): Status {
      match this
      case Complete(n) => Complete(k + n)
      case TruncatedAtEof(n) => TruncatedAtEof(k + n)
      case _ => this
    }
  }

  /** A value, the number of bytes the cursor moved, and how the reading ended. */
  datatype Reading = Reading(value: nat, next: nat, status: Status)

  /** One more than the largest value that can still follow k groups of seven bits. */
  function Room(k: nat): (r: nat)
    requires k <= 9
    ensures r >= 2
    decreases 9 - k
  {
    if k == 9 then 2 else 128 * Room(k + 1)
  }

  lemma RoomIsU64()
    ensures Room(0) == U64_LIMIT
  {
    assert Room(7) == 128 * 128 * 2;
    assert Room(5) == 128 * 128 * Room(7);
    assert Room(3) == 128 * 128 * Room(5);
    assert Room(1) == 128 * 128 * Room(3);
  }

  /** Only the last group is ever short of room: it holds one bit. */
  lemma RoomIs(k: nat)
    requires k <= 9
    ensures if k == 9 then Room(k) == 2 else Room(k) >= 256
  {
  }

  /** What reading `s` gives when k continuation bytes came before it. */
  function Scan(s: seq<Byte>, k: nat): (r: Reading)
    requires k <= 9
    ensures r.next <= |s| && r.next <= 10 - k
    ensures r.value < Room(k)
    ensures r.status.Complete? || r.status.TruncatedAtEof? ==> r.status.bytesRead == r.next
    decreases s
  {
    if s == [] then Reading(0, 0, TruncatedAtEof(0))
    else if k == 9 && s[0] >= 2 then Reading(0, 1, Overflow)
    else if s[0] == 0 && k != 0 then Reading(0, 1, NonCanonical)
    else if s[0] < 128 then Reading(s[0], 1, Complete(1))
    else
      var rest := Scan(s[1..], k + 1);
      Reading(s[0] % 128 + 128 * rest.value, 1 + rest.next, rest.status.After(1))
  }

  /** The canonical printer: low seven bits first, high bit set on all but the last byte. */
  function EncodeVarint(v: nat): (s: seq<Byte>)
    ensures |s| >= 1
  {
    if v < 128 then [v] else [v % 128 + 128] + EncodeVarint(v / 128)
  }

  // ---------------------------------------------------------------- the bijection

  lemma {:induction false} ScanOfEncoding(v: nat, k: nat, t: seq<Byte>)
    requires k <= 9 && v < Room(k)
    requires k != 0 ==> v != 0
    ensures Scan(EncodeVarint(v) + t, k)
            == Reading(v, |EncodeVarint(v)|, Complete(|EncodeVarint(v)|))
    decreases v
  {
    var s := EncodeVarint(v) + t;
    if v >= 128 {
      var hi := v / 128;
      assert k < 9;
      ScanOfEncoding(hi, k + 1, t);
      assert s[1..] == EncodeVarint(hi) + t;
      assert s[0] == v % 128 + 128;
    }
  }

  lemma {:induction false} EncodingOfScan(s: seq<Byte>, k: nat)
    requires k <= 9
    requires Scan(s, k).status.Complete?
    ensures var r := Scan(s, k);
            s[..r.next] == EncodeVarint(r.value) && (k != 0 ==> r.value != 0)
    decreases 9 - k
  {
    var r := Scan(s, k);
    if s[0] >= 128 {
      EncodingOfScan(s[1..], k + 1);
      var rest := Scan(s[1..], k + 1);
      assert r.value / 128 == rest.value && r.value % 128 == s[0] - 128;
      assert s[..r.next] == [s[0]] + s[1..][..rest.next];
    } else {
      assert s[..1] == [s[0]];
    }
  }

  /**
   * Reading succeeds with value v over the first n bytes exactly when those bytes are the printed
   * form of v.  Hence no value has two accepted encodings and every u64 has one.
   */
  lemma VarintBijection(s: seq<Byte>, v: U64, n: nat)
    ensures Scan(s, 0) == Reading(v, n, Complete(n)) <==> n <= |s| && s[..n] == EncodeVarint(v)
    ensures |EncodeVarint(v)| <= 10
  {
    RoomIsU64();
    ScanOfEncoding(v, 0, []);
    assert EncodeVarint(v) + [] == EncodeVarint(v);
    if Scan(s, 0) == Reading(v, n, Complete(n)) {
      EncodingOfScan(s, 0);
    }
    if n <= |s| && s[..n] == EncodeVarint(v) {
      ScanOfEncoding(v, 0, s[n..]);
      assert s == s[..n] + s[n..];
    }
  }

  /**
   * A reading stopped by the end of the buffer saw at most nine bytes, all of them continuation
   * bytes; and if it accumulated nothing, every one of them was 0x80.
   */
  lemma {:induction false} TruncatedScan(s: seq<Byte>, k: nat)
    requires k <= 9
    requires Scan(s, k).status.TruncatedAtEof?
    ensures Scan(s, k).next == |s| <= 9 - k
    ensures Scan(s, k).value == 0 ==> s == Repeat(0x80, |s|)
    decreases 9 - k
  {
    if s != [] {
      TruncatedScan(s[1..], k + 1);
      assert s == [s[0]] + s[1..];
    }
  }

  /** Conversely, up to nine 0x80 bytes read as a truncated zero. */
  lemma {:induction false} ScanOfContinuations(n: nat, k: nat)
    requires n + k <= 9
    ensures Scan(Repeat(0x80, n), k) == Reading(0, n, TruncatedAtEof(n))
    decreases n
  {
    if n != 0 {
      var s: seq<Byte> := Repeat(0x80, n);
      ScanOfContinuations(n - 1, k + 1);
      assert s[1..] == Repeat(0x80, n - 1);
      assert s[0] == 0x80;
    }
  }

  // ---------------------------------------------------------------- the loops

  /** v shifted past k groups of seven bits: v * 128^k. */
  function Scaled(k: nat, v: nat): nat
    decreases k
  {
    if k == 0 then v else 128 * Scaled(k - 1, v)
  }

  lemma {:induction false} ScaledAdds(k: nat, a: nat, b: nat)
    ensures Scaled(k, a + b) == Scaled(k, a) + Scaled(k, b)
  {
    if k != 0 {
      ScaledAdds(k - 1, a, b);
    }
  }

  lemma {:induction false} ScaledGroup(k: nat, v: nat)
    ensures Scaled(k, 128 * v) == Scaled(k + 1, v)
  {
    if k != 0 {
      ScaledGroup(k - 1, v);
    }
  }

  lemma {:induction false} ScaledIsShift(k: nat, v: nat)
    ensures Scaled(k, v) == v * Pow2(7 * k)
  {
    if k != 0 {
      ScaledIsShift(k - 1, v);
      Pow2Adds(7 * (k - 1), 7);
      Pow2Of7();
      assert 7 * (k - 1) + 7 == 7 * k;
      MulAssociates(v, Pow2(7 * (k - 1)), 128);
    }
  }

  /** The room left after k groups is exactly what a u64 has above them. */
  lemma {:induction false} ScaledRoom(k: nat)
    requires k <= 9
    ensures Scaled(k, Room(k)) == U64_LIMIT
  {
    if k == 0 {
      RoomIsU64();
    } else {
      ScaledRoom(k - 1);
      ScaledGroup(k - 1, Room(k));
    }
  }

  /**
   * Adding a group of seven bits at shift 7k to a value that fills only the bits below: nothing
   * overlaps, nothing is shifted out, and the result is the weighted sum.
   */
  lemma GroupFits(value: nat, low: nat, k: nat)
    requires k <= 9 && value < Scaled(k, 1) && low < 128 && low < Room(k)
    ensures Shl64(low, 7 * k) == Scaled(k, low)
    ensures BitOr(value, Shl64(low, 7 * k)) == value + Scaled(k, low)
  {
    hide Scaled, Room, BitOr;
    GroupBounds(value, low, k);
    ScaledIsShift(k, low);
    ScaledIsShift(k, 1);
    assert Shl64(low, 7 * k) == Scaled(k, low);
    hide Shl64;
    OrAboveIsPlus(value, low, 7 * k, Scaled(k, low));
  }

  lemma GroupBounds(value: nat, low: nat, k: nat)
    requires k <= 9 && value < Scaled(k, 1) && low < 128 && low < Room(k)
    ensures value + Scaled(k, low) < Min(Scaled(k + 1, 1), U64_LIMIT)
  {
    ScaledAdds(k, low, 1);
    ScaledAdds(k, low + 1, Room(k) - (low + 1));
    ScaledAdds(k, low + 1, 128 - (low + 1));
    ScaledRoom(k);
    ScaledGroup(k, 1);
  }

  /** A reading is k groups worth `value`, followed by the reading of what is left. */
  ghost predicate Folds(total: Reading, left: seq<Byte>, k: nat, value: nat)
    requires k <= 9
  {
    var rest := Scan(left, k);
    && total.value == value + Scaled(k, rest.value)
    && total.next == k + rest.next
    && total.status == rest.status.After(k)
  }

  lemma FoldStart(s: seq<Byte>)
    ensures Folds(Scan(s, 0), s, 0, 0)
  {
    hide Scan;
  }

  lemma FoldStep(total: Reading, left: seq<Byte>, k: nat, value: nat)
    requires k < 9 && left != [] && left[0] >= 128
    requires Folds(total, left, k, value)
    ensures Folds(total, left[1..], k + 1, value + Scaled(k, left[0] % 128))
  {
    var low := left[0] % 128;
    var later := Scan(left[1..], k + 1).value;
    assert Scan(left, k).value == low + 128 * later;
    ScaledAdds(k, low, 128 * later);
    ScaledGroup(k, later);
  }

  /** The four ways the reading can end at group k. */
  lemma FoldEnds(total: Reading, left: seq<Byte>, k: nat, value: nat)
    requires k <= 9 && Folds(total, left, k, value)
    ensures left == [] ==> total == Reading(value, k, TruncatedAtEof(k))
    ensures left != [] && k == 9 && left[0] >= 2 ==> total == Reading(value, k + 1, Overflow)
    ensures left != [] && 0 < k && left[0] == 0 ==> total == Reading(value, k + 1, NonCanonical)
    ensures left != [] && (k == 9 ==> left[0] == 1) && left[0] < 128 && (k != 0 ==> left[0] != 0) ==>
              total == Reading(value + Scaled(k, left[0]), k + 1, Complete(k + 1))
  {
    ScaledAdds(k, 0, 0);
  }

  /** `shift + 7 >= 64 && u64::from(byte) >= (1u64 << (64 - shift))`. */
  predicate TooBig(byte: Byte, shift: nat)
    requires shift < 64
  {
    shift + 7 >= 64 && byte >= Pow2(64 - shift)
  }

  lemma TooBigIs(byte: Byte, k: nat)
    requires k <= 9
    ensures TooBig(byte, 7 * k) <==> k == 9 && byte >= 2
  {
    assert Pow2(1) == 2;
  }

  /** `value |= u64::from(byte & 0x7f) << shift`. */
  method OrGroup(value: U64, byte: Byte, shift: nat, ghost k: nat) returns (r: U64)
    requires k <= 9 && shift == 7 * k
    requires value < Scaled(k, 1) && (k == 9 ==> byte == 1)
    ensures r == value + Scaled(k, byte % 128) < Scaled(k + 1, 1)
    ensures byte < 128 ==> r == value + Scaled(k, byte)
  {
    hide Scaled, Room, BitOr, Shl64;
    RoomIs(k);
    assert byte % 128 < Room(k);
    GroupFits(value, byte % 128, k);
    GroupBounds(value, byte % 128, k);
    r := BitOr(value, Shl64(byte % 128, shift));
  }

  /** The decoder's bounded loop: shift takes the ten values 0, 7, ... 63. */
  method ReadVarint(buf: seq<Byte>, start: nat) returns (value: U64, pos: nat, status: Status)
    requires start <= |buf|
    ensures start <= pos <= |buf| && pos - start <= 10
    ensures Reading(value, pos - start, status) == Scan(buf[start..], 0)
  {
    hide Scan;
    value, pos := 0, start;
    var bytesRead, shift := 0, 0;
    ghost var total := Scan(buf[start..], 0);
    while shift < 64
      invariant 0 <= bytesRead <= 9 && shift == 7 * bytesRead
      invariant pos == start + bytesRead <= |buf|
      invariant value < Scaled(bytesRead, 1)
      invariant Folds(total, buf[pos..], bytesRead, value)
    {
      ghost var k, left, before := bytesRead, buf[pos..], value;
      FoldEnds(total, left, k, value);
      if pos >= |buf| {
        return value, pos, TruncatedAtEof(bytesRead);
      }
      var byte := buf[pos];
      pos, bytesRead := pos + 1, bytesRead + 1;
      assert left[0] == byte;
      TooBigIs(byte, k);
      if TooBig(byte, shift) {
        return value, pos, Overflow;
      }
      if byte == 0 && shift != 0 {
        return value, pos, NonCanonical;
      }
      assert k == 9 ==> byte == 1;
      value := OrGroup(value, byte, shift, k);
      if byte < 128 {
        assert total == Reading(value, bytesRead, Complete(bytesRead));
        return value, pos, Complete(bytesRead);
      }
      FoldStep(total, left, k, before);
      shift := shift + 7;
    }
    assert false;
    status := Overflow;
  }

  /** The encoder's loop, appending to the buffer it is given. */
  method PushVarint(v: U64, out: seq<Byte>) returns (grown: seq<Byte>)
    ensures grown == out + EncodeVarint(v)
  {
    var value: nat := v;
    grown := out;
    while true
      invariant grown + EncodeVarint(value) == out + EncodeVarint(v)
      decreases value
    {
      var byte := value % 128;
      ghost var before := value;
      value := value / 128;
      if value == 0 {
        assert EncodeVarint(before) == [byte];
        return grown + [byte];
      }
      assert EncodeVarint(before) == [byte + 128] + EncodeVarint(value);
      assert grown + ([byte + 128] + EncodeVarint(value)) == (grown + [byte + 128]) + EncodeVarint(value);
      grown := grown + [byte + 128];
    }
  }

  method VarintLen(v: U64) returns (n: nat)
    ensures n == |EncodeVarint(v)|
  {
    var buf := PushVarint(v, []);
    n := |buf|;
  }
}
