/** A value transfer (src/transaction.rs): sender, receiver, amount,
    timestamp and an optional, never-verified signature that `sign` fills
    in. The amount is an `f64`; its bit pattern is kept and its decimal
    rendering (Rust's `Display` for `f64`) is supplied by the caller as
    `render`. */
module Transactions {
  import opened Prelude
  import opened Hashing

  /** The IEEE-754 bit pattern of an `f64`. */
  type Amount = bv64

  /** How `to_string` prints a `bool`. */
  function BoolText(b: bool): string {
    if b then "true" else "false"
  }

  /** The text that `calculate_hash` hashes as its data: sender, receiver,
      amount and timestamp written one after the other, without separators. */
  function HashedText(sender: string, receiver: string, amountText: string, timestamp: u64): string {
    sender + receiver + amountText + Decimal(timestamp)
  }

  /** The hash of a transaction: its timestamp, the zero hash, then the
      hashed text. */
  function TransactionHash(sender: string, receiver: string, amountText: string, timestamp: u64): Hash256 {
    Hash(Decimal(timestamp), ZeroHash, HashedText(sender, receiver, amountText, timestamp))
  }

  /** The byte stream behind a transaction hash: the timestamp digits occur
      twice, around the zero hash and the sender, receiver and amount bytes. */
  lemma TransactionHashStream(sender: string, receiver: string, amountText: string, timestamp: u64)
    ensures TransactionHash(sender, receiver, amountText, timestamp)
         == Digest(Utf8(Decimal(timestamp)) + ZeroHash + Utf8(sender) + Utf8(receiver)
                   + Utf8(amountText) + Utf8(Decimal(timestamp)))
  {
    var ts := Decimal(timestamp);
    Utf8Append(sender + receiver + amountText, ts);
    Utf8Append(sender + receiver, amountText);
    Utf8Append(sender, receiver);
    var text := Utf8(sender) + Utf8(receiver) + Utf8(amountText) + Utf8(ts);
    assert Utf8(HashedText(sender, receiver, amountText, timestamp)) == text;
    assert Stream(ts, ZeroHash, HashedText(sender, receiver, amountText, timestamp))
        == Utf8(ts) + ZeroHash + text;
    Regroup(Utf8(ts), ZeroHash, Utf8(sender), Utf8(receiver), Utf8(amountText));
  }

  lemma Regroup<T>(a: seq<T>, b: seq<T>, c: seq<T>, d: seq<T>, e: seq<T>)
    ensures a + b + (c + d + e + a) == a + b + c + d + e + a
  {
  }

  /** Nothing separates sender from receiver in the hashed text, so moving
      characters across that boundary keeps the hash. */
  lemma SenderReceiverBoundaryNotHashed(s1: string, r1: string, s2: string, r2: string,
                                        amountText: string, timestamp: u64)
    requires s1 + r1 == s2 + r2
    ensures TransactionHash(s1, r1, amountText, timestamp) == TransactionHash(s2, r2, amountText, timestamp)
  {
    assert HashedText(s1, r1, amountText, timestamp) == (s1 + r1) + amountText + Decimal(timestamp);
    assert HashedText(s2, r2, amountText, timestamp) == (s2 + r2) + amountText + Decimal(timestamp);
  }

  class Transaction {
    var sender: string
    var receiver: string
    var amount: Amount
    var timestamp: u64
    var signature: Option<string>

    /** `Transaction::new`, with the clock reading passed in: unsigned. */
    constructor(sender: string, receiver: string, amount: Amount, timestamp: u64)
      ensures this.sender == sender && this.receiver == receiver
      ensures this.amount == amount && this.timestamp == timestamp
      ensures signature == None && !IsSigned()
    {
      this.sender := sender;
      this.receiver := receiver;
      this.amount := amount;
      this.timestamp := timestamp;
      this.signature := None;
    }

    /** `is_signed`: whether a signature has been stored. */
    function IsSigned(): (b: bool)
      reads this
      ensures b <==> signature != None
    {
      signature.Some?
    }

    /** `calculate_hash`: the signature takes no part. */
    method CalculateHash(render: Amount -> string) returns (h: Hash256)
      ensures h == TransactionHash(sender, receiver, render(amount), timestamp)
    {
      var data := sender + receiver + render(amount) + Decimal(timestamp);
      h := Hashing.CalculateHash(Decimal(timestamp), ZeroHash, data);
    }

    /** `sign`: store the signature, replacing any earlier one. */
    method Sign(signature: string)
      modifies this
      ensures this.signature == Some(signature) && IsSigned()
      ensures sender == old(sender) && receiver == old(receiver)
      ensures amount == old(amount) && timestamp == old(timestamp)
    {
      this.signature := Some(signature);
    }

    /** `to_string`: the fields in a fixed frame, ending with whether the
        transaction is signed. */
    function ToString(render: Amount -> string): (s: string)
      reads this
      ensures StartsWith(s, "From: " + sender + " To: " + receiver)
      ensures var tail := " Signed: " + BoolText(IsSigned());
              |tail| <= |s| && s[|s| - |tail|..] == tail
    {
      "From: " + sender + " To: " + receiver + " Amount: " + render(amount)
      + " Time: " + Decimal(timestamp) + " Signed: " + BoolText(IsSigned())
    }
  }
}
