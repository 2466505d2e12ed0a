/**
 * The daemon's chain as the explorer sees it through its calls, at one moment: blocks by height,
 * blocks by hash, and transactions.
 */
module ChainNode {
  import opened Words
  import opened Numerals
  import opened Hex
  import opened Caching
  import opened TxOrder

  /** `depth` is counted from a moving tip; everything else in a header is fixed. */
  datatype Header =
    Header(height: U64, depth: nat, hash: Text, numTxes: nat, minerTxHash: Text, rest: Text)
  {
    function Stable(): Header {
      this.(depth := 0)
    }
  }

  datatype Block = Block(header: Header, minerTxHash: Text, txHashes: seq<Text>, blob: Text) {
    function Stable(): Block {
      this.(header := header.Stable())
    }
  }

  /** `filter_map(|t| t.parse::<Hash32>().ok())`. */
  function ParseAll(texts: seq<Text>): seq<Hash32> {
    if texts == [] then [] else ParseOne(texts[0]) + ParseAll(texts[1..])
  }

  function ParseOne(text: Text): seq<Hash32> {
    match HashFromText(text) case Hash(h) => [h] case _ => []
  }

  /** Two headers that agree but for the depth, which is all that ages. */
  lemma StableHeaders(a: Header, b: Header)
    ensures a.Stable() == b.Stable() <==>
              && a.height == b.height && a.hash == b.hash && a.numTxes == b.numTxes
              && a.minerTxHash == b.minerTxHash && a.rest == b.rest
  {
  }

  lemma StableBlocks(a: Block, b: Block)
    ensures a.Stable() == b.Stable() <==>
              && a.header.height == b.header.height && a.header.hash == b.header.hash
              && a.header.numTxes == b.header.numTxes && a.header.minerTxHash == b.header.minerTxHash
              && a.header.rest == b.header.rest
              && a.minerTxHash == b.minerTxHash && a.txHashes == b.txHashes && a.blob == b.blob
  {
    StableHeaders(a.header, b.header);
  }

  /** The hashes of a block's transactions, coinbase first. */
  function BlockHashes(block: Block): seq<Hash32> {
    ParseAll([block.minerTxHash]) + ParseAll(block.txHashes)
  }

  /** Text i is the hash i, and a text that is no hash is left out. */
  lemma {:induction false} ParseAllIs(texts: seq<Text>, hashes: seq<Hash32>)
    requires |texts| == |hashes| && forall i :: 0 <= i < |texts| ==> Lower(texts[i]) == Encoding(hashes[i])
    ensures ParseAll(texts) == hashes
  {
    if texts != [] {
      ParseAllIs(texts[1..], hashes[1..]);
      HashRoundTrip(hashes[0], texts[0]);
      hide HashFromText, Encoding, Lower;
      assert [hashes[0]] + hashes[1..] == hashes;
    }
  }

  /**
   * The list of a block whose hashes all read: the coinbase first, then its transactions in the order
   * the block has them.  Without a coinbase hash that reads, the transactions alone.
   */
  lemma BlockHashesAre(block: Block, coinbase: Hash32, hashes: seq<Hash32>)
    requires |block.txHashes| == |hashes|
    requires forall i :: 0 <= i < |hashes| ==> Lower(block.txHashes[i]) == Encoding(hashes[i])
    ensures Lower(block.minerTxHash) == Encoding(coinbase) ==> BlockHashes(block) == [coinbase] + hashes
    ensures |block.minerTxHash| != 64 || !AllHex(block.minerTxHash) ==> BlockHashes(block) == hashes
  {
    ParseAllIs(block.txHashes, hashes);
    HashRoundTrip(coinbase, block.minerTxHash);
    hide Encoding, Lower;
    assert ParseAll([]) == [];
    assert [block.minerTxHash][1..] == [];
    assert ParseAll([block.minerTxHash]) == ParseOne(block.minerTxHash);
  }

  // ---------------------------------------------------------------- requests for transactions

  function Texts(hashes: seq<Hash32>): (r: seq<Text>)
    ensures |r| == |hashes|
  {
    seq(|hashes|, i requires 0 <= i < |hashes| => Encoding(hashes[i]))
  }

  lemma {:induction false} ParseTexts(hashes: seq<Hash32>)
    ensures ParseAll(Texts(hashes)) == hashes
  {
    if hashes != [] {
      ParseTexts(hashes[1..]);
      HashRoundTrip(hashes[0], []);
      assert Texts(hashes)[1..] == Texts(hashes[1..]);
      hide HashFromText, Encoding;
      assert [hashes[0]] + hashes[1..] == hashes;
    }
  }

  /** The entries the daemon has, in the order of the request. */
  function Entries(hashes: seq<Hash32>, txs: TxMap): seq<TxEntry> {
    if hashes == [] then []
    else (if hashes[0] in txs then [txs[hashes[0]]] else []) + Entries(hashes[1..], txs)
  }

  lemma {:induction false} EntriesAre(hashes: seq<Hash32>, txs: TxMap)
    ensures forall e :: e in Entries(hashes, txs) <==> exists h :: h in hashes && h in txs && txs[h] == e
  {
    if hashes != [] {
      EntriesAre(hashes[1..], txs);
      assert hashes == [hashes[0]] + hashes[1..];
      forall e ensures e in Entries(hashes, txs) <==> exists h :: h in hashes && h in txs && txs[h] == e {
        if e in Entries(hashes, txs) {
          if hashes[0] in txs && txs[hashes[0]] == e {
            assert hashes[0] in hashes;
          } else {
            assert e in Entries(hashes[1..], txs);
          }
        }
      }
    }
  }

  /** The hashes it does not have. */
  function Unknown(hashes: seq<Hash32>, txs: TxMap): seq<Hash32> {
    if hashes == [] then [] else UnknownOne(hashes[0], txs) + Unknown(hashes[1..], txs)
  }

  function UnknownOne(h: Hash32, txs: TxMap): seq<Hash32> {
    if h in txs then [] else [h]
  }

  /** Exactly the requested hashes the daemon does not have, in the order of the request. */
  lemma {:induction false} UnknownSpec(hashes: seq<Hash32>, txs: TxMap)
    ensures forall h :: h in Unknown(hashes, txs) <==> h in hashes && h !in txs
    ensures (forall h :: h in hashes ==> h !in txs) ==> Unknown(hashes, txs) == hashes
  {
    if hashes != [] {
      UnknownSpec(hashes[1..], txs);
      assert hashes == [hashes[0]] + hashes[1..];
    }
  }

  lemma UnknownUnfolds(hashes: seq<Hash32>, txs: TxMap)
    requires hashes != []
    ensures Unknown(hashes, txs) == UnknownOne(hashes[0], txs) + Unknown(hashes[1..], txs)
  {
  }

  lemma {:induction false} UnknownAppends(a: seq<Hash32>, b: seq<Hash32>, txs: TxMap)
    ensures Unknown(a + b, txs) == Unknown(a, txs) + Unknown(b, txs)
  {
    if a == [] {
      assert a + b == b && Unknown(a, txs) == [];
      hide Unknown;
    } else {
      hide Unknown, UnknownOne;
      UnknownAppends(a[1..], b, txs);
      UnknownUnfolds(a, txs);
      TailOfConcat(a, b);
      UnknownUnfolds(a + b, txs);
      ConcatAssociates(UnknownOne(a[0], txs), Unknown(a[1..], txs), Unknown(b, txs));
    }
  }

  lemma UnknownGrows(a: seq<Hash32>, h: Hash32, txs: TxMap)
    ensures Unknown(a + [h], txs) == Unknown(a, txs) + if h in txs then [] else [h]
  {
    UnknownAppends(a, [h], txs);
    assert [h][1..] == [];
  }

  lemma TextsAppend(a: seq<Hash32>, b: seq<Hash32>)
    ensures Texts(a + b) == Texts(a) + Texts(b)
  {
    hide Encoding;
  }

  // ---------------------------------------------------------------- the node

  /**
   * What is taken on trust about the daemon's answers: heights number the chain, a header agrees
   * with its block, an entry carries the hash it was asked for by, and a block answered by hash
   * and buried past the reorg window is the main chain's.
   */
  ghost predicate Honest(chain: seq<Block>, blocks: map<Hash32, Block>, txs: TxMap) {
    && |chain| < U64_LIMIT
    && (forall i :: 0 <= i < |chain| ==> HeaderAgrees(chain[i], i))
    && (forall h :: h in txs ==> HashFromText(txs[h].txHash) == Hash(h))
    && (forall h :: h in blocks ==> HashFromText(blocks[h].header.hash) == Hash(h))
    && (forall h :: h in blocks && SafeToCacheByHeight(blocks[h].header.depth) ==>
          blocks[h].header.height < |chain| && blocks[h].Stable() == chain[blocks[h].header.height].Stable())
    && (forall i :: 0 <= i < |chain| ==> forall h :: HashFromText(chain[i].header.hash) == Hash(h) ==>
          h in blocks && blocks[h].Stable() == chain[i].Stable())
  }

  predicate HeaderAgrees(block: Block, height: nat) {
    && block.header.height == height
    && block.header.minerTxHash == block.minerTxHash
    && block.header.numTxes == |block.txHashes|
  }

  class Node {
    const chain: seq<Block>
    const blocks: map<Hash32, Block>
    const txs: TxMap
    /** The calls that fail. */
    const faults: set<nat>
    var calls: nat
    /** The hashes that each request for transactions asked for. */
    ghost var asked: seq<seq<Hash32>>

    ghost predicate Trusted() {
      Honest(chain, blocks, txs)
    }

    constructor (chain: seq<Block>, blocks: map<Hash32, Block>, txs: TxMap, faults: set<nat>)
      requires Honest(chain, blocks, txs)
      ensures this.chain == chain && this.blocks == blocks && this.txs == txs && this.faults == faults
      ensures calls == 0 && asked == []
    {
      this.chain, this.blocks, this.txs, this.faults, calls, asked := chain, blocks, txs, faults, 0, [];
    }

    method GetBlockByHeight(height: U64) returns (r: Option<Block>)
      modifies this
      ensures calls == old(calls) + 1 && asked == old(asked)
      ensures r == if old(calls) in faults || height >= |chain| then None else Some(chain[height])
    {
      r := if calls in faults || height >= |chain| then None else Some(chain[height]);
      calls := calls + 1;
    }

    method GetBlockByHash(hash: Hash32) returns (r: Option<Block>)
      modifies this
      ensures calls == old(calls) + 1 && asked == old(asked)
      ensures r == if old(calls) in faults || hash !in blocks then None else Some(blocks[hash])
    {
      r := if calls in faults || hash !in blocks then None else Some(blocks[hash]);
      calls := calls + 1;
    }

    method GetHeadersRange(start: U64, end: U64) returns (r: Option<seq<Header>>)
      modifies this
      ensures calls == old(calls) + 1 && asked == old(asked)
      ensures r == if old(calls) in faults || !(start <= end < |chain|) then None
                   else Some(Headers(chain[start..end + 1]))
    {
      r := if calls in faults || !(start <= end < |chain|) then None else Some(Headers(chain[start..end + 1]));
      calls := calls + 1;
    }

    method GetTransactions(texts: seq<Text>) returns (r: Option<(seq<TxEntry>, seq<Text>)>)
      modifies this
      ensures calls == old(calls) + 1 && asked == old(asked) + [ParseAll(texts)]
      ensures r == if old(calls) in faults then None
                   else Some((Entries(ParseAll(texts), txs), Texts(Unknown(ParseAll(texts), txs))))
    {
      var hashes := ParseAll(texts);
      r := if calls in faults then None else Some((Entries(hashes, txs), Texts(Unknown(hashes, txs))));
      calls, asked := calls + 1, asked + [ParseAll(texts)];
    }
  }

  function Headers(blocks: seq<Block>): (r: seq<Header>)
    ensures |r| == |blocks|
  {
    seq(|blocks|, i requires 0 <= i < |blocks| => blocks[i].header)
  }
}
