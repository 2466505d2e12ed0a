/**
 * What a transaction input's ring is: the meaning the two ways of resolving it have to agree on.
 */
module Rings {
  import opened Words
  import opened Numerals
  import opened Hex

  /** An output by its amount and its index, which means nothing without the amount. */
  datatype OutRequest = OutRequest(amount: U64, index: U64)

  datatype OutKey = OutKey(key: Text, height: U64, txid: Text)

  datatype TxInToKey = TxInToKey(amount: U64, keyOffsets: seq<U64>, kImage: Text)

  datatype TxIn = Key(input: TxInToKey) | Other

  datatype RingMember = RingMember(index: U64, blockHeight: U64, publicKey: Hash32, txHash: Hash32)

  datatype ResolvedInput =
    ResolvedInput(amount: U64, keyImage: Hash32, ring: seq<RingMember>, ringUnavailable: bool)

  /** The daemon's outputs: which requests name one, and which one. */
  type Table = map<OutRequest, OutKey>

  // ---------------------------------------------------------------- ring members

  function Sum(s: seq<U64>): nat {
    if s == [] then 0 else Sum(s[..|s| - 1]) + s[|s| - 1]
  }

  /** Member i sits at the sum of the first i + 1 offsets; nothing does if the sum leaves u64. */
  function Members(input: TxInToKey): Option<seq<OutRequest>> {
    if Sum(input.keyOffsets) >= U64_LIMIT then None
    else Some(seq(|input.keyOffsets|, i requires 0 <= i < |input.keyOffsets| => Member(input, i)))
  }

  function Member(input: TxInToKey, i: nat): OutRequest
    requires i < |input.keyOffsets| && Sum(input.keyOffsets) < U64_LIMIT
  {
    SumGrows(input.keyOffsets, i + 1);
    OutRequest(input.amount, Sum(input.keyOffsets[..i + 1]))
  }

  lemma {:induction false} SumGrows(s: seq<U64>, n: nat)
    requires n <= |s|
    ensures Sum(s[..n]) <= Sum(s)
    decreases |s| - n
  {
    if n == |s| {
      assert s[..n] == s;
    } else {
      assert s[..n + 1][..n] == s[..n];
      SumGrows(s, n + 1);
    }
  }

  method RingMembers(input: TxInToKey) returns (r: Option<seq<OutRequest>>)
    ensures r == Members(input)
  {
    var absolute: U64, out: seq<OutRequest> := 0, [];
    var offsets := input.keyOffsets;
    for i := 0 to |offsets|
      invariant absolute == Sum(offsets[..i])
      invariant |out| == i
      invariant forall k :: 0 <= k < i ==> out[k].amount == input.amount && out[k].index == Sum(offsets[..k + 1])
    {
      assert offsets[..i + 1][..i] == offsets[..i];
      SumGrows(offsets, i + 1);
      if absolute + offsets[i] >= U64_LIMIT {
        return None;
      }
      absolute := absolute + offsets[i];
      out := out + [OutRequest(input.amount, absolute)];
    }
    assert offsets[..|offsets|] == offsets;
    assert out == Members(input).value;
    r := Some(out);
  }

  // ---------------------------------------------------------------- one input, by definition

  function ToMember(request: OutRequest, out: OutKey): RingMember {
    RingMember(request.index, out.height, HashOrZero(out.key), HashOrZero(out.txid))
  }

  predicate AllIn(requests: seq<OutRequest>, table: Table) {
    forall i :: 0 <= i < |requests| ==> requests[i] in table
  }

  function RingOf(requests: seq<OutRequest>, table: Table): seq<RingMember>
    requires AllIn(requests, table)
  {
    seq(|requests|, i requires 0 <= i < |requests| => ToMember(requests[i], table[requests[i]]))
  }

  function Unresolved(input: TxInToKey, unavailable: bool): ResolvedInput {
    ResolvedInput(input.amount, HashOrZero(input.kImage), [], unavailable)
  }

  /**
   * The full ring where every offset resolves, an empty available ring where there are no offsets,
   * and unavailable otherwise.
   */
  function Resolved(input: TxInToKey, table: Table): ResolvedInput {
    match Members(input)
    case None => Unresolved(input, true)
    case Some(requests) =>
      if AllIn(requests, table) then
        ResolvedInput(input.amount, HashOrZero(input.kImage), RingOf(requests, table), false)
      else Unresolved(input, true)
  }

  /** The inputs of a transaction that have rings, in order. */
  function KeyInputs(vin: seq<TxIn>): seq<TxInToKey> {
    if vin == [] then []
    else (if vin[0].Key? then [vin[0].input] else []) + KeyInputs(vin[1..])
  }

  /** The hash a text spells, in either case; zeros for a text that spells none. */
  predicate Spells(text: Text, h: Hash32) {
    if |text| == 64 && AllHex(text) then Lower(text) == Encoding(h) else h == Repeat(0, 32)
  }

  /** The sum of the first i + 1 offsets is an index the table has under the input's amount. */
  predicate HasMember(input: TxInToKey, i: nat, table: Table)
    requires i < |input.keyOffsets|
  {
    var index := Sum(input.keyOffsets[..i + 1]);
    index < 0x1_0000_0000_0000_0000 && OutRequest(input.amount, index) in table
  }

  predicate Resolves(input: TxInToKey, table: Table) {
    forall i :: 0 <= i < |input.keyOffsets| ==> HasMember(input, i, table)
  }

  /** Member i shows the output at the sum of the first i + 1 offsets: its own height, key and transaction. */
  predicate ShowsMember(m: RingMember, input: TxInToKey, i: nat, table: Table)
    requires i < |input.keyOffsets|
  {
    && m.index == Sum(input.keyOffsets[..i + 1])
    && OutRequest(input.amount, m.index) in table
    && var out := table[OutRequest(input.amount, m.index)];
    m.blockHeight == out.height && Spells(out.key, m.publicKey) && Spells(out.txid, m.txHash)
  }

  /** What an answer shows of an input. */
  ghost predicate Shows(r: ResolvedInput, input: TxInToKey, table: Table) {
    && r.amount == input.amount && Spells(input.kImage, r.keyImage)
    && (r.ringUnavailable <==> !Resolves(input, table))
    && (r.ringUnavailable ==> r.ring == [])
    && (!r.ringUnavailable ==>
          && |r.ring| == |input.keyOffsets|
          && forall i :: 0 <= i < |r.ring| ==> ShowsMember(r.ring[i], input, i, table))
  }

  /** What a failed call leaves to show. */
  predicate Withheld(r: ResolvedInput, input: TxInToKey) {
    r.amount == input.amount && Spells(input.kImage, r.keyImage) && r.ring == [] && r.ringUnavailable
  }

  lemma SpellsHash(text: Text)
    ensures Spells(text, HashOrZero(text))
    ensures forall h :: Spells(text, h) ==> h == HashOrZero(text)
  {
    forall h: Hash32 | |text| == 64 && AllHex(text)
      ensures HashFromText(text) == Hash(h) <==> Lower(text) == Encoding(h)
    {
      HashRoundTrip(h, text);
    }
    hide ReadPairs, Lower, Encoding;
  }

  lemma MembersResolve(input: TxInToKey, table: Table)
    ensures Resolves(input, table) <==> Members(input).Some? && AllIn(Members(input).value, table)
  {
    var offsets := input.keyOffsets;
    assert offsets[..|offsets|] == offsets;
    if Members(input).Some? {
      var members := Members(input).value;
      forall i | 0 <= i < |members| ensures HasMember(input, i, table) <==> members[i] in table {
        SumGrows(offsets, i + 1);
        assert members[i] == Member(input, i);
      }
    } else {
      assert offsets != [];
      assert !HasMember(input, |offsets| - 1, table);
    }
  }

  lemma ResolvedIs(input: TxInToKey, table: Table)
    ensures Resolved(input, table) ==
            match Members(input)
            case None => Unresolved(input, true)
            case Some(requests) =>
              if AllIn(requests, table) then
                ResolvedInput(input.amount, HashOrZero(input.kImage), RingOf(requests, table), false)
              else Unresolved(input, true)
  {
    hide Members;
  }

  /** What the answers to an input are compared with is that, and only that. */
  lemma ResolvedShows(input: TxInToKey, table: Table)
    ensures Shows(Resolved(input, table), input, table)
  {
    MembersResolve(input, table);
    SpellsHash(input.kImage);
    hide Spells, HashOrZero, Resolves;
    if Members(input).Some? && AllIn(Members(input).value, table) {
      var members := Members(input).value;
      forall i | 0 <= i < |members| ensures ShowsMember(RingOf(members, table)[i], input, i, table) {
        SpellsHash(table[members[i]].key);
        SpellsHash(table[members[i]].txid);
      }
    }
  }

  lemma UnresolvedIsWithheld(input: TxInToKey)
    ensures Withheld(Unresolved(input, true), input)
  {
    SpellsHash(input.kImage);
    hide Spells, HashOrZero;
  }

  /** Answers that are each what the input resolves to, or withheld, show as much. */
  lemma AllShow(r: seq<ResolvedInput>, inputs: seq<TxInToKey>, table: Table)
    requires |r| == |inputs|
    ensures forall i :: 0 <= i < |inputs| && r[i] == Resolved(inputs[i], table) ==> Shows(r[i], inputs[i], table)
    ensures forall i :: 0 <= i < |inputs| && r[i] == Unresolved(inputs[i], true) ==> Withheld(r[i], inputs[i])
  {
    forall i | 0 <= i < |inputs| ensures Shows(Resolved(inputs[i], table), inputs[i], table) {
      ResolvedShows(inputs[i], table);
    }
    forall i | 0 <= i < |inputs| ensures Withheld(Unresolved(inputs[i], true), inputs[i]) {
      UnresolvedIsWithheld(inputs[i]);
    }
    hide Shows, Withheld, Resolved, Unresolved;
  }

  /** The inputs that have rings are the key inputs, all of them, in the order of the transaction. */
  lemma {:induction false} KeyInputsAre(inputs: seq<TxInToKey>)
    ensures KeyInputs(seq(|inputs|, i requires 0 <= i < |inputs| => Key(inputs[i]))) == inputs
  {
    if inputs != [] {
      KeyInputsAre(inputs[1..]);
      var keys := seq(|inputs|, i requires 0 <= i < |inputs| => Key(inputs[i]));
      assert keys[1..] == seq(|inputs[1..]|, i requires 0 <= i < |inputs[1..]| => Key(inputs[1..][i]));
      assert [inputs[0]] + inputs[1..] == inputs;
    }
  }

  /** An input without a ring counts for nothing wherever it stands. */
  lemma OthersDropOut(a: seq<TxIn>, b: seq<TxIn>)
    ensures KeyInputs(a + [Other] + b) == KeyInputs(a) + KeyInputs(b)
  {
    KeyInputsAppend(a + [Other], b);
    KeyInputsAppend(a, [Other]);
    assert [Other][1..] == [] && KeyInputs([Other]) == [];
    hide KeyInputs;
    assert KeyInputs(a) + [] == KeyInputs(a);
  }

  lemma {:induction false} KeyInputsAppend(a: seq<TxIn>, b: seq<TxIn>)
    ensures KeyInputs(a + b) == KeyInputs(a) + KeyInputs(b)
  {
    if a == [] {
      assert a + b == b && KeyInputs(a) == [];
      hide KeyInputs;
    } else {
      KeyInputsAppend(a[1..], b);
      TailOfConcat(a, b);
      var first := if a[0].Key? then [a[0].input] else [];
      assert KeyInputs(a + b) == first + KeyInputs((a + b)[1..]) && KeyInputs(a) == first + KeyInputs(a[1..]);
      hide KeyInputs;
      ConcatAssociates(first, KeyInputs(a[1..]), KeyInputs(b));
    }
  }

  /** Every input on its own terms: what one of them is cannot depend on its neighbours. */
  function ResolvedAll(inputs: seq<TxInToKey>, table: Table): seq<ResolvedInput> {
    seq(|inputs|, i requires 0 <= i < |inputs| => Resolved(inputs[i], table))
  }

  lemma ResolvedAllIs(r: seq<ResolvedInput>, inputs: seq<TxInToKey>, table: Table)
    ensures r == ResolvedAll(inputs, table) <==>
              |r| == |inputs| && forall i :: 0 <= i < |inputs| ==> r[i] == Resolved(inputs[i], table)
  {
    hide Resolved;
  }

  /** All members of all rings, ring after ring. */
  function Flat(rings: seq<seq<OutRequest>>): seq<OutRequest> {
    if rings == [] then [] else rings[0] + Flat(rings[1..])
  }

  lemma {:induction false} FlatHolds(rings: seq<seq<OutRequest>>, i: nat, k: nat)
    requires i < |rings| && k < |rings[i]|
    ensures rings[i][k] in Flat(rings)
    decreases |rings|
  {
    if i > 0 {
      FlatHolds(rings[1..], i - 1, k);
    }
  }

  lemma {:induction false} FlatOnly(rings: seq<seq<OutRequest>>, key: OutRequest)
    requires key in Flat(rings)
    ensures exists i, k :: 0 <= i < |rings| && 0 <= k < |rings[i]| && rings[i][k] == key
    decreases |rings|
  {
    if key in rings[0] {
      var k :| 0 <= k < |rings[0]| && rings[0][k] == key;
      assert rings[0][k] == key;
    } else {
      assert key in Flat(rings[1..]);
      FlatOnly(rings[1..], key);
      var i, k :| 0 <= i < |rings[1..]| && 0 <= k < |rings[1..][i]| && rings[1..][i][k] == key;
      assert rings[i + 1][k] == key;
    }
  }

  // ---------------------------------------------------------------- a batch of inputs

  /** What a batch needs of every input: a ring, not empty, all of it in the table. */
  predicate Usable(input: TxInToKey, table: Table) {
    match Members(input)
    case None => false
    case Some(requests) => requests != [] && AllIn(requests, table)
  }

  /** The ring of one input as far as it is known; anything short of all of it is not shown. */
  function Assembled(input: TxInToKey, members: seq<OutRequest>, known: map<OutRequest, OutKey>): ResolvedInput {
    var ring := KnownMembers(members, known);
    if |ring| == |members| then ResolvedInput(input.amount, HashOrZero(input.kImage), ring, false)
    else Unresolved(input, true)
  }

  function KnownMembers(members: seq<OutRequest>, known: map<OutRequest, OutKey>): seq<RingMember> {
    if members == [] then []
    else
      (if members[0] in known then [ToMember(members[0], known[members[0]])] else [])
      + KnownMembers(members[1..], known)
  }

  /** Nothing missing and nothing wrong: the assembled ring is the ring. */
  lemma {:induction false} KnownMembersAll(members: seq<OutRequest>, known: map<OutRequest, OutKey>, table: Table)
    requires AllIn(members, table)
    requires forall i :: 0 <= i < |members| ==> members[i] in known && known[members[i]] == table[members[i]]
    ensures KnownMembers(members, known) == RingOf(members, table)
  {
    if members != [] {
      KnownMembersAll(members[1..], known, table);
      assert RingOf(members, table) == [ToMember(members[0], table[members[0]])] + RingOf(members[1..], table);
    }
  }

  lemma AssembledIsResolved(input: TxInToKey, members: seq<OutRequest>, known: map<OutRequest, OutKey>, table: Table)
    requires Members(input) == Some(members)
    requires forall i :: 0 <= i < |members| ==>
               members[i] in table && members[i] in known && known[members[i]] == table[members[i]]
    ensures Assembled(input, members, known) == Resolved(input, table)
  {
    KnownMembersAll(members, known, table);
    hide Members, KnownMembers;
  }
}
