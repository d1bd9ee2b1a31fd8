/** A block of the node's chain (src/block.rs): a timestamp, the hash of
    the block before it, its own hash and a free-form data string. The hash
    is computed once, when the block is built, from the other three fields. */
module Blocks {
  import opened Prelude
  import opened Hashing

  /** The text of the genesis block. */
  const GenesisData: string := "Genesis Block"

  datatype Block = Block(timestamp: u64, prevBlockHash: Hash256, hash: Hash256, data: string)
  {
    /** What `calculate_hash` yields for this block: the timestamp in
        decimal, the previous hash and the data, through the node's digest. */
    function ExpectedHash(): Hash256 {
      Hash(Decimal(timestamp), prevBlockHash, data)
    }

    /** The stored hash agrees with the block's own fields. */
    predicate HashIsCurrent() {
      hash == ExpectedHash()
    }

    /** `Block::calculate_hash`. */
    method CalculateHash() returns (h: Hash256)
      ensures h == Digest(Utf8(Decimal(timestamp)) + prevBlockHash + Utf8(data))
      ensures h == ExpectedHash()
    {
      h := Hashing.CalculateHash(Decimal(timestamp), prevBlockHash, data);
    }

    /** `get_hash`: the stored hash field. */
    function GetHash(): Hash256 {
      hash
    }

    /** `get_prev_hash`: the stored previous-hash field. */
    function GetPrevHash(): Hash256 {
      prevBlockHash
    }
  }

  /** `Block::new`, with the clock reading passed in as `timestamp`: the
      block is first built with a zero hash, then its hash field is set. */
  method NewBlock(data: string, prevBlockHash: Hash256, timestamp: u64) returns (b: Block)
    ensures b.timestamp == timestamp && b.prevBlockHash == prevBlockHash && b.data == data
    ensures b.HashIsCurrent()
  {
    b := Block(timestamp, prevBlockHash, ZeroHash, data);
    var h := b.CalculateHash();
    b := b.(hash := h);
  }

  /** `Block::genesis`: a block holding "Genesis Block" on the zero hash. */
  method Genesis(timestamp: u64) returns (b: Block)
    ensures b.prevBlockHash == ZeroHash && b.data == GenesisData && b.timestamp == timestamp
    ensures b.HashIsCurrent()
  {
    b := NewBlock(GenesisData, ZeroHash, timestamp);
  }
}
