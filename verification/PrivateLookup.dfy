/**
 * The k-anonymous lookup in plain numbers: which arguments it refuses, and for which reason, what it
 * asks the daemon for, and what it answers.
 */
module PrivateLookup {
  import opened Words
  import opened Numerals
  import opened Hex
  import opened KAnonymity

  // ---------------------------------------------------------------- what is refused

  /** Each further character divides the expected set by sixteen. */
  function Sixteens(n: nat): (p: nat)
    ensures p >= 1
  {
    if n == 0 then 1 else 16 * Sixteens(n - 1)
  }

  lemma {:induction false} ExpectedIs(txCount: U64, n: nat)
    ensures Expected(txCount, n) == txCount / Sixteens(n)
  {
    if n == 0 {
      ExpectedOfNone(txCount);
    } else {
      ExpectedIs(txCount, n - 1);
      ExpectedStep(txCount, n - 1);
      DivDiv(txCount, Sixteens(n - 1), 16);
    }
    hide Expected;
  }

  /**
   * An argument is refused if and only if it is not hexadecimal, or not as long as the configuration
   * asks, or not expected to match between 20 and 1000 transactions.
   */
  lemma RefusedExactly(ids: seq<Hash32>, raw: Text, txCount: U64, limits: Limits)
    ensures TransactionPrivate(ids, raw, txCount, limits).Refused? <==>
              !(&& AllHex(raw)
                && limits.postfixMin <= |raw| <= limits.postfixMax
                && 20 <= txCount / Sixteens(|raw|) <= 1000)
  {
    LowerIsHexBoth(raw);
    ExpectedIs(txCount, |raw|);
    hide Expected, Lower, AllHex, Matching, TxidsLoose, FromHexSuffix, WholeByteSuffix, Sixteens;
  }

  /** And the first test that fails is the one it is told of: length, alphabet, too long, too short. */
  lemma RefusedWhy(ids: seq<Hash32>, raw: Text, txCount: U64, limits: Limits)
    ensures var answer := TransactionPrivate(ids, raw, txCount, limits);
            var rightLength := limits.postfixMin <= |raw| <= limits.postfixMax;
            var matches := txCount / Sixteens(|raw|);
            && (answer == Refused(Length) <==> !rightLength)
            && (answer == Refused(NotHexPostfix) <==> rightLength && !AllHex(raw))
            && (answer == Refused(TooLongToBeAnonymous(txCount)) <==> rightLength && AllHex(raw) && matches < 20)
            && (answer.Refused? && answer.why.TooShortToServe? <==> rightLength && AllHex(raw) && matches > 1000)
            && (answer.Refused? && answer.why.TooShortToServe? ==> answer.why.expected == matches)
  {
    LowerIsHexBoth(raw);
    ExpectedIs(txCount, |raw|);
    hide Expected, Lower, AllHex, Matching, TxidsLoose, FromHexSuffix, WholeByteSuffix, Sixteens;
  }

  lemma LowerIsHexBoth(s: Text)
    ensures AllHex(Lower(s)) <==> AllHex(s)
  {
    if AllHex(s) {
      LowerIsHex(s);
    }
    if AllHex(Lower(s)) {
      HexOfLower(s);
    }
    hide AllHex, Lower;
  }

  /** Ten characters of a hash name that one transaction on a chain of 134,875, and are refused. */
  lemma NamingOneIsRefused(ids: seq<Hash32>, raw: Text)
    requires |raw| == 10 && AllHex(raw)
    ensures TransactionPrivate(ids, raw, 134875, Limits(1, 12)) == Refused(TooLongToBeAnonymous(134875))
  {
    RefusedWhy(ids, raw, 134875, Limits(1, 12));
    assert Sixteens(5) == 1048576;
    assert Sixteens(10) > 134875;
    hide TransactionPrivate, AllHex, Sixteens;
  }

  // ---------------------------------------------------------------- what the daemon is asked

  /** The template is as wide as a hash, and the bits asked for are the suffix's. */
  lemma RequestIsWide(suffix: Text)
    ensures FromHexSuffix(suffix).Some? <==> 2 <= |suffix| <= 64 && |suffix| % 2 == 0 && AllHex(suffix)
    ensures FromHexSuffix(suffix).Some? ==>
              var request := FromHexSuffix(suffix).value;
              |request.template| == 64 && request.bits == 4 * |suffix| && EndsWith(request.template, Lower(suffix))
  {
    hide AllHex, Lower;
  }

  /** The daemon's match on the template is a match on the suffix, no wider. */
  lemma TemplateMeans(id: Hash32, suffix: Text)
    requires FromHexSuffix(suffix).Some?
    ensures MatchesTemplate(id, FromHexSuffix(suffix).value) <==> EndsWith(Encoding(id), Lower(suffix))
  {
    var k, low := |suffix| / 2, Lower(suffix);
    var tail := id[32 - k..];
    TemplateTail(suffix);
    TailEnding(id, k, low);
    LowTailReads(tail, suffix);
    hide Encoding, ReadPairs, HashFromText, Lower, AllHex, EndsWith;
  }

  lemma TailEnding(id: Hash32, k: nat, low: Text)
    requires k <= 32 && |low| == 2 * k
    ensures EndsWith(Encoding(id), low) <==> Encoding(id[32 - k..]) == low
  {
    TailText(id, k);
    hide Encoding;
  }

  lemma LowTailReads(tail: seq<Byte>, suffix: Text)
    requires AllHex(suffix) && |suffix| % 2 == 0
    ensures tail == ReadPairs(Lower(suffix)) <==> Encoding(tail) == Lower(suffix)
  {
    var low := Lower(suffix);
    LowerIsHex(suffix);
    ReadPairsLength(low);
    EncodingOfPairs(low);
    hide Encoding, ReadPairs, Lower, AllHex;
    if Encoding(tail) == low {
      EncodingInjective(tail, ReadPairs(low));
    }
  }

  /** So what comes back before the filter is the hashes that end with the narrowed suffix. */
  lemma {:induction false} LooseMeans(ids: seq<Hash32>, suffix: Text)
    requires FromHexSuffix(suffix).Some?
    ensures var found, ending := TxidsLoose(ids, FromHexSuffix(suffix).value), EndingWith(ids, Lower(suffix));
            |found| == |ending| && forall i :: 0 <= i < |found| ==> found[i] == Encoding(ending[i])
  {
    if ids != [] {
      LooseMeans(ids[1..], suffix);
      TemplateMeans(ids[0], suffix);
      hide MatchesTemplate, FromHexSuffix, Encoding, EndsWith, Lower;
    }
  }

  // ---------------------------------------------------------------- what is answered

  lemma EndsWithMeans(s: Text, suffix: Text)
    ensures EndsWith(s, suffix) <==> exists front :: s == front + suffix
  {
    if EndsWith(s, suffix) {
      assert s == s[..|s| - |suffix|] + suffix;
    }
  }

  /** The hashes answered for a postfix are those of the list whose text is something and then it. */
  lemma {:induction false} EndingWithSpec(ids: seq<Hash32>, postfix: Text)
    ensures forall id :: id in EndingWith(ids, postfix) <==>
              id in ids && exists front :: Encoding(id) == front + postfix
  {
    if ids != [] {
      EndingWithSpec(ids[1..], postfix);
      EndsWithMeans(Encoding(ids[0]), postfix);
      assert ids == [ids[0]] + ids[1..];
      hide Encoding, EndsWith;
    }
  }

  /** In the order of the list. */
  lemma {:induction false} EndingWithAppends(a: seq<Hash32>, b: seq<Hash32>, postfix: Text)
    ensures EndingWith(a + b, postfix) == EndingWith(a, postfix) + EndingWith(b, postfix)
  {
    hide EndsWith, Encoding;
    if a == [] {
      assert a + b == b && EndingWith(a, postfix) == [];
      hide EndingWith;
    } else {
      EndingWithAppends(a[1..], b, postfix);
      TailOfConcat(a, b);
      var first := if EndsWith(Encoding(a[0]), postfix) then [a[0]] else [];
      assert EndingWith(a + b, postfix) == first + EndingWith((a + b)[1..], postfix);
      assert EndingWith(a, postfix) == first + EndingWith(a[1..], postfix);
      hide EndingWith;
      ConcatAssociates(first, EndingWith(a[1..], postfix), EndingWith(b, postfix));
    }
  }
}
