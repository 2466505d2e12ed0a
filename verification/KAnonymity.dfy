/**
 * The k-anonymous transaction lookup: which postfix lengths a chain of a given size accepts, and
 * that narrowing, padding and filtering find exactly the transactions asked about.
 */
module KAnonymity {
  import opened Words
  import opened Numerals
  import opened Hex

  const MIN_ANONYMITY_SET := 20
  const MAX_PRIVATE_TX_MATCHES := 1000

  /** The ratio the source asserts at compile time: one more character divides the set by sixteen. */
  predicate BandWideEnough(floor: nat, ceiling: nat) {
    floor > 0 && ceiling / floor >= 16
  }

  datatype Limits = Limits(postfixMin: nat, postfixMax: nat)

  datatype Refusal = Length | NotHexPostfix | TooLongToBeAnonymous(txCount: U64) | TooShortToServe(expected: U64)

  lemma DivisionShrinks(n: nat, d: nat)
    requires d >= 1
    ensures 0 <= n / d <= n
  {
    assert n == d * (n / d) + n % d;
    MulMonotone(1, d, n / d);
  }

  /** `checked_shr(4 * len).unwrap_or(0)`. */
  function Expected(txCount: U64, len: nat): U64 {
    if 4 * len >= 64 then 0
    else
      DivisionShrinks(txCount, Pow2(4 * len));
      txCount / Pow2(4 * len)
  }

  /** None is acceptance. */
  function CheckPostfix(postfix: Text, txCount: U64, limits: Limits): Option<Refusal> {
    if |postfix| < limits.postfixMin || |postfix| > limits.postfixMax then Some(Length)
    else if !AllHex(postfix) then Some(NotHexPostfix)
    else if Expected(txCount, |postfix|) < MIN_ANONYMITY_SET then Some(TooLongToBeAnonymous(txCount))
    else if Expected(txCount, |postfix|) > MAX_PRIVATE_TX_MATCHES then
      Some(TooShortToServe(Expected(txCount, |postfix|)))
    else None
  }

  /** The text of n letters `a`, which the documentation page asks about. */
  function Letters(n: nat): (s: Text)
    ensures |s| == n
  {
    Repeat(Ascii('a'), n)
  }

  /** The accepted lengths from `lo` up to the configured maximum, in order. */
  function LengthsFrom(lo: nat, txCount: U64, limits: Limits): seq<nat>
    decreases limits.postfixMax + 1 - lo
  {
    if lo > limits.postfixMax then []
    else
      (if CheckPostfix(Letters(lo), txCount, limits).None? then [lo] else [])
      + LengthsFrom(lo + 1, txCount, limits)
  }

  function PostfixLengthsFor(txCount: U64, limits: Limits): seq<nat> {
    LengthsFrom(limits.postfixMin, txCount, limits)
  }

  // ---------------------------------------------------------------- the band

  /** Whether a set of the size expected for this length is between the two bounds. */
  predicate InBand(txCount: U64, len: nat, floor: nat, ceiling: nat) {
    floor <= Expected(txCount, len) <= ceiling
  }

  predicate Acceptable(len: nat, txCount: U64, limits: Limits) {
    && limits.postfixMin <= len <= limits.postfixMax
    && InBand(txCount, len, MIN_ANONYMITY_SET, MAX_PRIVATE_TX_MATCHES)
  }

  /** Whether a hex postfix is accepted depends on its length and nothing else about it. */
  lemma AcceptanceIsByLength(postfix: Text, txCount: U64, limits: Limits)
    ensures CheckPostfix(postfix, txCount, limits).None? <==>
              AllHex(postfix) && Acceptable(|postfix|, txCount, limits)
    ensures AllHex(postfix) ==>
              CheckPostfix(postfix, txCount, limits) == CheckPostfix(Letters(|postfix|), txCount, limits)
  {
    hide Expected;
  }

  /** What the documentation page lists is what the check accepts; ListedIsServed says what becomes of it. */
  lemma {:induction false} LengthsListed(lo: nat, n: nat, txCount: U64, limits: Limits)
    ensures n in LengthsFrom(lo, txCount, limits) <==>
              lo <= n <= limits.postfixMax && CheckPostfix(Letters(n), txCount, limits).None?
    decreases limits.postfixMax + 1 - lo
  {
    hide CheckPostfix, Letters;
    if lo <= limits.postfixMax {
      LengthsListed(lo + 1, n, txCount, limits);
    }
  }

  lemma Pow2Of64()
    ensures Pow2(64) == U64_LIMIT
  {
    assert Pow2(4) == 16;
    Pow2Adds(4, 4);
    Pow2Adds(8, 8);
    Pow2Adds(16, 16);
    Pow2Adds(32, 32);
  }

  /** One more character divides the expected set by sixteen. */
  lemma ExpectedStep(txCount: U64, len: nat)
    ensures Expected(txCount, len + 1) == Expected(txCount, len) / 16
  {
    if len < 15 {
      var p := Pow2(4 * len);
      Pow2Adds(4 * len, 4);
      assert Pow2(4) == 16;
      DivDiv(txCount, p, 16);
    } else if len == 15 {
      Pow2Adds(60, 4);
      assert Pow2(4) == 16;
      Pow2Of64();
      DivDiv(txCount, Pow2(60), 16);
      assert txCount / U64_LIMIT == 0;
    }
  }

  lemma DivDiv(a: nat, b: nat, c: nat)
    requires b > 0 && c > 0
    ensures b * c > 0 && a / (b * c) == a / b / c
  {
    var q, r := a / b, a % b;
    var q', r' := q / c, q % c;
    MulMonotone(1, b, c);
    assert a == b * q + r && q == c * q' + r';
    MulDistributes(c * q', r', b);
    MulAssociates(b, c, q');
    var rest := b * r' + r;
    MulMonotone(r' + 1, c, b);
    MulDistributes(r', 1, b);
    assert a == (b * c) * q' + rest && 0 <= rest < b * c;
    QuotientUnique(a, b * c, q', rest);
  }

  /** The longest postfix still expected to hide its transaction among `floor`. */
  ghost predicate Longest(txCount: U64, len: nat, floor: nat) {
    Expected(txCount, len) >= floor && Expected(txCount, len + 1) < floor
  }

  lemma {:induction false} ExpectedShrinks(txCount: U64, m: nat, n: nat)
    requires m <= n
    ensures Expected(txCount, n) <= Expected(txCount, m)
    ensures m < n ==> Expected(txCount, n) <= Expected(txCount, m) / 16
    decreases n - m
  {
    if m < n {
      ExpectedStep(txCount, m);
      ExpectedShrinks(txCount, m + 1, n);
    }
    hide Expected;
  }

  /**
   * The band is never empty between lengths.  Let len be the longest length above the floor.  Then
   * it is within the ceiling too, and the only other length that can be is the one before it.
   */
  lemma BandAroundLongest(txCount: U64, len: nat, n: nat, floor: nat, ceiling: nat)
    requires BandWideEnough(floor, ceiling) && Longest(txCount, len, floor)
    ensures InBand(txCount, len, floor, ceiling)
    ensures ceiling < 256 * floor ==>
              (InBand(txCount, n, floor, ceiling) <==>
               n == len || (n + 1 == len && Expected(txCount, n) <= ceiling))
  {
    hide Expected, BandWideEnough;
    ExpectedStep(txCount, len);
    CeilingAboveFloor(floor, ceiling);
    if n < len {
      ExpectedShrinks(txCount, n + 1, len);
      ExpectedStep(txCount, n);
    } else if n > len {
      ExpectedShrinks(txCount, len + 1, n);
    }
  }

  lemma CeilingAboveFloor(floor: nat, ceiling: nat)
    requires BandWideEnough(floor, ceiling)
    ensures ceiling >= 16 * floor
  {
    assert ceiling == floor * (ceiling / floor) + ceiling % floor;
    MulMonotone(16, ceiling / floor, floor);
  }

  ghost predicate SomeInBand(txCount: U64, floor: nat, ceiling: nat) {
    exists n: nat :: InBand(txCount, n, floor, ceiling)
  }

  /** Some length is in the band, whatever the size of the chain. */
  ghost predicate NeverEmpty(floor: nat, ceiling: nat) {
    forall txCount: U64 :: txCount >= floor ==> SomeInBand(txCount, floor, ceiling)
  }

  /**
   * How wide the band has to be: the ceiling may fall short of sixteen times the floor by one.  Any
   * lower, and a chain of 16 * (16 * floor - 1) transactions accepts no postfix.
   */
  lemma BandNeverEmptyExactly(floor: nat, ceiling: nat)
    requires floor > 0 && 16 * (16 * floor - 1) < U64_LIMIT
    ensures NeverEmpty(floor, ceiling) <==> ceiling >= 16 * floor - 1
  {
    if ceiling >= 16 * floor - 1 {
      forall txCount: U64 | txCount >= floor ensures SomeInBand(txCount, floor, ceiling) {
        ExpectedOfNone(txCount);
        var len := LongestExists(txCount, floor, 0);
        ExpectedStep(txCount, len);
        hide Expected;
        assert InBand(txCount, len, floor, ceiling);
      }
    } else {
      var txCount: U64 := 16 * (16 * floor - 1);
      forall n: nat ensures !InBand(txCount, n, floor, ceiling) {
        NarrowBandMisses(floor, ceiling, n);
      }
      hide InBand;
      assert txCount >= floor && !SomeInBand(txCount, floor, ceiling);
    }
  }

  lemma NarrowBandMisses(floor: nat, ceiling: nat, n: nat)
    requires floor > 0 && 16 * (16 * floor - 1) < U64_LIMIT && ceiling < 16 * floor - 1
    ensures !InBand(16 * (16 * floor - 1), n, floor, ceiling)
  {
    var txCount: U64 := 16 * (16 * floor - 1);
    ExpectedOfNone(txCount);
    ExpectedStep(txCount, 0);
    ExpectedStep(txCount, 1);
    hide Expected;
    assert Expected(txCount, 1) == 16 * floor - 1 && Expected(txCount, 2) < floor;
    if n >= 2 {
      ExpectedShrinks(txCount, 2, n);
    }
  }

  lemma ExpectedOfNone(txCount: U64)
    ensures Expected(txCount, 0) == txCount
  {
    assert Pow2(0) == 1;
  }

  /** On any chain that has enough transactions at all, there is a longest length. */
  lemma {:induction false} LongestExists(txCount: U64, floor: nat, from: nat) returns (len: nat)
    requires floor > 0 && Expected(txCount, from) >= floor
    ensures from <= len < 16 && Longest(txCount, len, floor)
    decreases 16 - from
  {
    assert from < 16;
    if Expected(txCount, from + 1) < floor {
      len := from;
    } else {
      len := LongestExists(txCount, floor, from + 1);
    }
  }

  /**
   * The accepted lengths, for every chain size and configuration: the longest anonymous length
   * whenever the configured bounds allow it, at most the one before it besides, and no other.
   */
  lemma AcceptedLengths(txCount: U64, len: nat, n: nat, limits: Limits)
    requires Longest(txCount, len, MIN_ANONYMITY_SET)
    ensures n in PostfixLengthsFor(txCount, limits) <==>
              && limits.postfixMin <= n <= limits.postfixMax
              && (n == len || (n + 1 == len && Expected(txCount, n) <= MAX_PRIVATE_TX_MATCHES))
  {
    LengthsListed(limits.postfixMin, n, txCount, limits);
    AcceptanceIsByLength(Letters(n), txCount, limits);
    BandAroundLongest(txCount, len, n, MIN_ANONYMITY_SET, MAX_PRIVATE_TX_MATCHES);
    hide Expected, LengthsFrom, CheckPostfix, Longest;
  }

  /** With fewer than twenty transactions no length is accepted. */
  lemma TooFewTransactions(txCount: U64, n: nat, limits: Limits)
    requires txCount < MIN_ANONYMITY_SET
    ensures n !in PostfixLengthsFor(txCount, limits)
  {
    LengthsListed(limits.postfixMin, n, txCount, limits);
    AcceptanceIsByLength(Letters(n), txCount, limits);
    ExpectedShrinks(txCount, 0, n);
    ExpectedOfNone(txCount);
    hide Expected, LengthsFrom, CheckPostfix;
  }

  // ---------------------------------------------------------------- the lookup

  /** A full-width hash as text, and how many of its low bits have to match. */
  datatype LooseRequest = LooseRequest(template: Text, bits: nat)

  predicate EndsWith(s: Text, suffix: Text) {
    |suffix| <= |s| && s[|s| - |suffix|..] == suffix
  }

  /** A whole number of bytes of the postfix, dropping its leading character if need be. */
  function WholeByteSuffix(postfix: Text): Text {
    var keep := |postfix| - |postfix| % 2;
    postfix[|postfix| - keep..]
  }

  function FromHexSuffix(suffix: Text): Option<LooseRequest> {
    if suffix == [] || |suffix| % 2 != 0 || |suffix| > 64 || !AllHex(suffix) then None
    else Some(LooseRequest(Repeat(Ascii('0'), 64 - |suffix|) + Lower(suffix), 4 * |suffix|))
  }

  /** The daemon's side: compare the low bits, here always whole bytes, of id and template. */
  predicate MatchesTemplate(id: Hash32, request: LooseRequest) {
    var k := request.bits / 8;
    k <= 32 &&
    match HashFromText(request.template)
    case Hash(t) => id[32 - k..] == t[32 - k..]
    case _ => false
  }

  /** Lowercase text of every matching id, in the daemon's order. */
  function TxidsLoose(ids: seq<Hash32>, request: LooseRequest): seq<Text> {
    if ids == [] then []
    else (if MatchesTemplate(ids[0], request) then [Encoding(ids[0])] else []) + TxidsLoose(ids[1..], request)
  }

  /** The surplus an odd-length postfix pulled in is filtered out again. */
  function Matching(txids: seq<Text>, postfix: Text): seq<Hash32> {
    if txids == [] then []
    else
      (if EndsWith(txids[0], postfix) && HashFromText(txids[0]).Hash? then [HashFromText(txids[0]).hash] else [])
      + Matching(txids[1..], postfix)
  }

  /** What was asked for: the transactions whose hash ends with the postfix. */
  function EndingWith(ids: seq<Hash32>, postfix: Text): seq<Hash32> {
    if ids == [] then []
    else (if EndsWith(Encoding(ids[0]), postfix) then [ids[0]] else []) + EndingWith(ids[1..], postfix)
  }

  datatype Answer = Refused(why: Refusal) | BadRequest | TooMany | Matches(hashes: seq<Hash32>)

  /** The handler, from the path argument to the hashes whose transactions are then fetched. */
  function TransactionPrivate(ids: seq<Hash32>, raw: Text, txCount: U64, limits: Limits): Answer {
    var postfix := Lower(raw);
    match CheckPostfix(postfix, txCount, limits)
    case Some(why) => Refused(why)
    case None =>
      match FromHexSuffix(WholeByteSuffix(postfix))
      case None => BadRequest
      case Some(request) =>
        var matching := Matching(TxidsLoose(ids, request), postfix);
        if |matching| > MAX_PRIVATE_TX_MATCHES then TooMany else Matches(matching)
  }

  lemma EncodingUnfolds(s: seq<Byte>)
    requires s != []
    ensures Encoding(s) == [Digit(s[0] / 16), Digit(s[0] % 16)] + Encoding(s[1..])
  {
    hide Digit;
  }

  lemma {:induction false} EncodingAppends(a: seq<Byte>, b: seq<Byte>)
    ensures Encoding(a + b) == Encoding(a) + Encoding(b)
  {
    if a == [] {
      assert a + b == b && Encoding(a) == [];
      hide Encoding;
    } else {
      hide Digit, Encoding;
      EncodingAppends(a[1..], b);
      EncodingUnfolds(a);
      EncodingUnfolds(a + b);
      assert (a + b)[1..] == a[1..] + b && (a + b)[0] == a[0];
      var pair: Text := [Digit(a[0] / 16), Digit(a[0] % 16)];
      assert pair + (Encoding(a[1..]) + Encoding(b)) == (pair + Encoding(a[1..])) + Encoding(b);
    }
  }

  lemma {:induction false} PairsAppend(a: Text, b: Text)
    requires |a| == 2 * |ReadPairs(a)|
    ensures ReadPairs(a + b) == ReadPairs(a) + ReadPairs(b)
    decreases |a|
  {
    hide Pair;
    if a == [] {
      assert a + b == b;
    } else {
      PairsAppend(a[2..], b);
      assert (a + b)[2..] == a[2..] + b;
    }
  }

  /** The last k bytes of a hash are the last 2k characters of its text. */
  lemma TailText(id: Hash32, k: nat)
    requires k <= 32
    ensures |Encoding(id)| == 64 && Encoding(id)[64 - 2 * k..] == Encoding(id[32 - k..])
  {
    var a, b := id[..32 - k], id[32 - k..];
    assert id == a + b;
    EncodingAppends(a, b);
    DecodingOfEncoding(id);
    DecodingOfEncoding(a);
    hide Encoding;
    assert (Encoding(a) + Encoding(b))[64 - 2 * k..] == Encoding(b);
  }

  /** The template's last bytes are the suffix's. */
  lemma TemplateTail(suffix: Text)
    requires FromHexSuffix(suffix).Some?
    ensures var template := FromHexSuffix(suffix).value.template;
            var k := |suffix| / 2;
            && HashFromText(template).Hash?
            && HashFromText(template).hash[32 - k..] == ReadPairs(Lower(suffix))
  {
    var zeros, low := Repeat(Ascii('0'), 64 - |suffix|), Lower(suffix);
    LowerIsHex(suffix);
    ReadPairsLength(zeros);
    ReadPairsLength(low);
    ReadPairsLength(zeros + low);
    PairsAppend(zeros, low);
    hide ReadPairs, Lower;
    assert AllHex(zeros + low);
  }

  lemma LowerIsHex(s: Text)
    requires AllHex(s)
    ensures AllHex(Lower(s)) && Lower(Lower(s)) == Lower(s)
  {
    forall i | 0 <= i < |s| ensures IsHexDigit(LowerByte(s[i])) {
    }
    assert forall i :: 0 <= i < |s| ==> Lower(Lower(s))[i] == Lower(s)[i];
  }

  lemma SuffixIsTail(postfix: Text, s: Text)
    requires AllHex(postfix) && Lower(postfix) == postfix
    ensures var suffix := WholeByteSuffix(postfix);
            && AllHex(suffix) && Lower(suffix) == suffix
            && |suffix| % 2 == 0 && |postfix| - 1 <= |suffix| <= |postfix|
            && (EndsWith(s, postfix) ==> EndsWith(s, suffix))
  {
    hide AllHex, Lower, EndsWith;
    var d := |postfix| % 2;
    assert WholeByteSuffix(postfix) == postfix[d..];
    hide WholeByteSuffix;
    LowerTail(postfix, d);
    if EndsWith(s, postfix) {
      TailEnds(s, postfix, d);
    }
  }

  lemma TailEnds(s: Text, postfix: Text, d: nat)
    requires EndsWith(s, postfix) && d <= |postfix|
    ensures EndsWith(s, postfix[d..])
  {
    assert s[|s| - |postfix|..][d..] == s[|s| - (|postfix| - d)..];
  }

  lemma LowerTail(s: Text, d: nat)
    requires AllHex(s) && Lower(s) == s && d <= |s|
    ensures AllHex(s[d..]) && Lower(s[d..]) == s[d..]
  {
    forall i | 0 <= i < |s| - d ensures Lower(s[d..])[i] == s[d..][i] {
      assert Lower(s)[i + d] == s[i + d];
    }
  }

  lemma TailMatches(id: Hash32, suffix: Text)
    requires FromHexSuffix(suffix).Some? && Lower(suffix) == suffix
    requires EndsWith(Encoding(id), suffix)
    ensures MatchesTemplate(id, FromHexSuffix(suffix).value)
  {
    var k := |suffix| / 2;
    TemplateTail(suffix);
    TailText(id, k);
    DecodingOfEncoding(id[32 - k..]);
    hide Encoding, ReadPairs, HashFromText, Lower, AllHex;
  }

  /** Every id with the postfix has the low bits the daemon is asked to match. */
  lemma PostfixMatches(id: Hash32, postfix: Text)
    requires 2 <= |postfix| <= 64 && AllHex(postfix) && Lower(postfix) == postfix
    requires EndsWith(Encoding(id), postfix)
    ensures FromHexSuffix(WholeByteSuffix(postfix)).Some?
    ensures MatchesTemplate(id, FromHexSuffix(WholeByteSuffix(postfix)).value)
  {
    SuffixIsTail(postfix, Encoding(id));
    hide Encoding, EndsWith, MatchesTemplate, WholeByteSuffix, Lower, AllHex;
    TailMatches(id, WholeByteSuffix(postfix));
  }

  /** Narrowing to whole bytes and filtering afterwards loses nothing and adds nothing. */
  lemma {:induction false} LooseIsExact(ids: seq<Hash32>, postfix: Text, request: LooseRequest)
    requires 2 <= |postfix| <= 64 && AllHex(postfix) && Lower(postfix) == postfix
    requires FromHexSuffix(WholeByteSuffix(postfix)) == Some(request)
    ensures Matching(TxidsLoose(ids, request), postfix) == EndingWith(ids, postfix)
  {
    if ids != [] {
      var id := ids[0];
      LooseIsExact(ids[1..], postfix, request);
      if EndsWith(Encoding(id), postfix) {
        PostfixMatches(id, postfix);
      }
      HashRoundTrip(id, []);
      hide MatchesTemplate, FromHexSuffix, Encoding, HashFromText, EndsWith, WholeByteSuffix, Lower;
      var rest := TxidsLoose(ids[1..], request);
      if MatchesTemplate(id, request) {
        assert ([Encoding(id)] + rest)[1..] == rest;
      } else {
        assert [] + rest == rest;
      }
    }
  }

  /**
   * Every accepted postfix of two characters or more is answered with exactly the transactions
   * whose hash ends with it, whatever its case and whether its length is even or odd.  A single
   * character narrows to nothing and is refused after all.
   */
  lemma LookupIsExact(ids: seq<Hash32>, raw: Text, txCount: U64, limits: Limits)
    requires CheckPostfix(Lower(raw), txCount, limits).None?
    ensures |raw| < 16
    ensures |raw| >= 2 ==>
              TransactionPrivate(ids, raw, txCount, limits) ==
              if |EndingWith(ids, Lower(raw))| > MAX_PRIVATE_TX_MATCHES then TooMany
              else Matches(EndingWith(ids, Lower(raw)))
    ensures |raw| < 2 ==> TransactionPrivate(ids, raw, txCount, limits) == BadRequest
  {
    var postfix := Lower(raw);
    var suffix := WholeByteSuffix(postfix);
    AcceptanceIsByLength(postfix, txCount, limits);
    HexOfLower(raw);
    LowerIsHex(raw);
    SuffixIsTail(postfix, []);
    hide Matching, TxidsLoose, EndingWith, Lower, AllHex, CheckPostfix, WholeByteSuffix, EndsWith;
    if |raw| >= 2 {
      LooseIsExact(ids, postfix, FromHexSuffix(suffix).value);
    }
  }

  // ---------------------------------------------------------------- what is listed and what is served

  /** Every hex text of that length gets its transactions, or is told there are too many. */
  ghost predicate AlwaysServed(n: nat, txCount: U64, limits: Limits) {
    forall ids, raw :: |raw| == n && AllHex(raw) ==>
      var answer := TransactionPrivate(ids, raw, txCount, limits);
      answer.Matches? || answer.TooMany?
  }

  /**
   * A listed length is served if and only if it is two or more: a single character passes the check,
   * narrows to no byte at all, and is then refused as if it were not hex.
   */
  lemma ListedIsServed(n: nat, txCount: U64, limits: Limits)
    requires n in PostfixLengthsFor(txCount, limits)
    ensures AlwaysServed(n, txCount, limits) <==> n >= 2
  {
    hide TransactionPrivate, LengthsFrom, CheckPostfix, Lower, AllHex;
    LengthsListed(limits.postfixMin, n, txCount, limits);
    AcceptanceIsByLength(Letters(n), txCount, limits);
    forall ids, raw | |raw| == n && AllHex(raw)
      ensures var answer := TransactionPrivate(ids, raw, txCount, limits);
              if n >= 2 then answer.Matches? || answer.TooMany? else answer == BadRequest
    {
      LowerIsHex(raw);
      AcceptanceIsByLength(Lower(raw), txCount, limits);
      LookupIsExact(ids, raw, txCount, limits);
    }
    if n < 2 {
      assert TransactionPrivate([], Letters(n), txCount, limits) == BadRequest;
    }
  }

  /** When the single character is listed: a small minimum and a small chain. */
  lemma SingleIsListed(txCount: U64, limits: Limits)
    ensures 1 in PostfixLengthsFor(txCount, limits) <==>
              limits.postfixMin <= 1 <= limits.postfixMax && 320 <= txCount < 16016
  {
    LengthsListed(limits.postfixMin, 1, txCount, limits);
    AcceptanceIsByLength(Letters(1), txCount, limits);
    LettersAreHex(1);
    ExpectedOfNone(txCount);
    ExpectedStep(txCount, 0);
    hide Expected, LengthsFrom, CheckPostfix, AllHex;
  }

  lemma LettersAreHex(n: nat)
    ensures AllHex(Letters(n))
  {
  }

  /** A chain of 320 transactions lists the length 1 and refuses every postfix of it. */
  lemma SingleIsRefused()
    ensures 1 in PostfixLengthsFor(320, Limits(1, 12))
    ensures TransactionPrivate([], [Ascii('a')], 320, Limits(1, 12)) == BadRequest
  {
    var limits := Limits(1, 12);
    SingleIsListed(320, limits);
    LengthsListed(1, 1, 320, limits);
    AcceptanceIsByLength(Letters(1), 320, limits);
    var raw: Text := [Ascii('a')];
    assert raw == Letters(1);
    LowerIsHex(raw);
    AcceptanceIsByLength(Lower(raw), 320, limits);
    hide TransactionPrivate, LengthsFrom, CheckPostfix, Lower, AllHex, Letters;
    LookupIsExact([], raw, 320, limits);
  }
}
