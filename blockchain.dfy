/** The node's chain (src/blockchain.rs): a vector of blocks that starts
    with the genesis block and only ever grows at the end, each new block
    pointing at the hash of the block before it. */
module Chain {
  import opened Prelude
  import opened Hashing
  import opened Blocks

  /** The two checks `is_valid` makes of block `i` (for `i >= 1`): its hash
      recomputes, and it points at the hash of block `i - 1`. */
  predicate LinkOk(blocks: seq<Block>, i: nat)
    requires 1 <= i < |blocks|
  {
    blocks[i].HashIsCurrent() && blocks[i].prevBlockHash == blocks[i - 1].hash
  }

  /** What `is_valid` decides. Block 0 (genesis) is never checked. */
  predicate ChainValid(blocks: seq<Block>) {
    forall i :: 1 <= i < |blocks| ==> LinkOk(blocks, i)
  }

  /** A chain extended by one block is valid exactly when the old chain was
      valid and the new block (unless it is the first) recomputes and links
      to the old tip. */
  lemma ChainValidAppend(blocks: seq<Block>, b: Block)
    ensures ChainValid(blocks + [b]) <==>
              ChainValid(blocks)
              && (|blocks| > 0 ==> b.HashIsCurrent() && b.prevBlockHash == blocks[|blocks| - 1].hash)
  {
    var c := blocks + [b];
    assert forall i :: 1 <= i < |blocks| ==> (LinkOk(c, i) <==> LinkOk(blocks, i));
    if |blocks| > 0 && ChainValid(c) {
      assert LinkOk(c, |blocks|);
    }
  }

  /** A one-block chain is valid whatever its block holds. */
  lemma SingleBlockChainValid(b: Block)
    ensures ChainValid([b])
  {
  }

  /** The two comparisons `is_valid` makes of block `i`, against the
      recomputed hash `h`, decide `LinkOk`. */
  lemma LinkCheck(blocks: seq<Block>, i: nat, h: Hash256)
    requires 1 <= i < |blocks|
    requires h == blocks[i].ExpectedHash()
    ensures LinkOk(blocks, i) <==> blocks[i].GetHash() == h && blocks[i].GetPrevHash() == blocks[i - 1].GetHash()
  {
  }

  class Blockchain {
    var blocks: seq<Block>

    /** `blocks` is never empty, so `last().unwrap()` cannot fail. */
    ghost predicate Valid()
      reads this
    {
      |blocks| > 0
    }

    /** `Blockchain::new`: a chain holding just the genesis block, built at
        `timestamp`. */
    constructor(timestamp: u64)
      ensures Valid() && |blocks| == 1
      ensures blocks[0].prevBlockHash == ZeroHash && blocks[0].data == GenesisData
      ensures blocks[0].timestamp == timestamp && blocks[0].HashIsCurrent()
      ensures ChainValid(blocks)
    {
      var genesis := Genesis(timestamp);
      blocks := [genesis];
    }

    /** `get_latest_block`: the tip. */
    function GetLatestBlock(): (b: Block)
      reads this
      requires Valid()
      ensures b == blocks[|blocks| - 1]
    {
      blocks[|blocks| - 1]
    }

    /** `add_block`: push a new block, built at `timestamp`, that points at
        the current tip. Earlier blocks are untouched and validity is kept. */
    method AddBlock(data: string, timestamp: u64)
      requires Valid()
      modifies this
      ensures Valid()
      ensures |blocks| == |old(blocks)| + 1 && blocks[..|old(blocks)|] == old(blocks)
      ensures GetLatestBlock().prevBlockHash == old(GetLatestBlock()).hash
      ensures GetLatestBlock().data == data && GetLatestBlock().timestamp == timestamp
      ensures GetLatestBlock().HashIsCurrent()
      ensures ChainValid(blocks) <==> ChainValid(old(blocks))
    {
      var prevBlock := GetLatestBlock();
      var newBlock := NewBlock(data, prevBlock.GetHash(), timestamp);
      ChainValidAppend(blocks, newBlock);
      blocks := blocks + [newBlock];
      assert blocks[..|old(blocks)|] == old(blocks);
    }

    /** `is_valid`: walk the chain from index 1 and stop at the first block
        whose hash does not recompute or that does not link to its
        predecessor. */
    method IsValid() returns (v: bool)
      ensures v <==> ChainValid(blocks)
    {
      var i := 1;
      while i < |blocks|
        invariant 1 <= i <= |blocks| + 1
        invariant forall j :: 1 <= j < i && j < |blocks| ==> LinkOk(blocks, j)
      {
        var currentBlock := blocks[i];
        var prevBlock := blocks[i - 1];
        var h := currentBlock.CalculateHash();
        LinkCheck(blocks, i, h);
        if currentBlock.GetHash() != h {
          return false;
        }
        if currentBlock.GetPrevHash() != prevBlock.GetHash() {
          return false;
        }
        i := i + 1;
      }
      return true;
    }
  }
}
