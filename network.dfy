/** The node's text protocol (src/network.rs) with the sockets taken out.
    One connection carries one message; the node picks a command by prefix,
    answers with a fixed string, and may change its peer set or call into
    the ledger. The ledger calls and the JSON decoding are not part of this
    model: the dispatcher reports which ledger call it makes, and is told
    whether a payload decodes and what `get_block_to_mine` returned. */
module Network {
  import opened Prelude

  const NewTransactionPrefix: string := "NEW_TRANSACTION:"
  const GetBlockToMinePrefix: string := "GET_BLOCK_TO_MINE"
  const MinedBlockPrefix: string := "MINED_BLOCK:"
  const AddPeerPrefix: string := "ADD_PEER:"
  const GetPeersCommand: string := "GET_PEERS"
  const PeerListPrefix: string := "PEER_LIST:"

  const TransactionAdded: string := "Transaction added"
  const NoBlockAvailable: string := "NO_BLOCK_AVAILABLE"
  const MinedBlockAdded: string := "Mined block added to blockchain"
  const UnknownCommand: string := "Unknown command"

  /** The arm of the `match` in `handle_connection` a message falls into,
      with the payload that arm slices off. */
  datatype Command =
    | NewTransaction(txJson: string)
    | GetBlockToMine
    | MinedBlock(blockJson: string)
    | AddPeer(peer: string)
    | GetPeers
    | Unknown

  /** The ledger operation a message leads to. */
  datatype LedgerCall =
    | NoLedgerCall
    | AddTransactionCall(txJson: string)
    | GetBlockToMineCall
    | AddMinedBlockCall(blockJson: string)

  /** What code outside this model answers: whether `serde_json` accepts a
      payload as a transaction or as a block, and the JSON text of the block
      `get_block_to_mine` returned, if any. */
  datatype Collaborators = Collaborators(
    isTransactionJson: string -> bool,
    isBlockJson: string -> bool,
    blockToMine: Option<string>)

  /** One exchange: the reply written back (`None` when the handler panics
      on an undecodable payload and the connection closes unanswered), the
      peer set afterwards, and the ledger call made. */
  datatype Outcome = Outcome(response: Option<string>, peers: set<string>, call: LedgerCall)

  /** `order` lists the elements of `peers` once each: one possible
      iteration order of the `HashSet`. */
  predicate Enumerates(order: seq<string>, peers: set<string>) {
    (forall i, j :: 0 <= i < j < |order| ==> order[i] != order[j])
    && (set p | p in order) == peers
  }

  /** The prefix match of `handle_connection`. The first four arms test the
      raw message; only `GET_PEERS` is compared after trimming. The prefixes
      are ASCII, so the source's byte offsets are character offsets. */
  function Classify(message: string): (c: Command)
    ensures c.NewTransaction? ==> message == NewTransactionPrefix + c.txJson
    ensures c.GetBlockToMine? ==> StartsWith(message, GetBlockToMinePrefix)
    ensures c.MinedBlock? ==> message == MinedBlockPrefix + c.blockJson
    ensures c.AddPeer? ==> message == AddPeerPrefix + c.peer
    ensures c.GetPeers? ==> Trim(message) == GetPeersCommand
  {
    if StartsWith(message, NewTransactionPrefix) then
      assert message == message[..16] + message[16..];
      NewTransaction(message[16..])
    else if StartsWith(message, GetBlockToMinePrefix) then
      GetBlockToMine
    else if StartsWith(message, MinedBlockPrefix) then
      assert message == message[..12] + message[12..];
      MinedBlock(message[12..])
    else if StartsWith(message, AddPeerPrefix) then
      assert message == message[..9] + message[9..];
      AddPeer(message[9..])
    else if Trim(message) == GetPeersCommand then
      GetPeers
    else
      Unknown
  }

  /** The `GET_PEERS` reply for peers iterated in `order`. */
  function PeerList(order: seq<string>): string {
    PeerListPrefix + Join(order, ',')
  }

  /** `handle_connection` once the message has been read: the reply, the
      new peer set and the ledger call. */
  function Dispatch(message: string, peers: set<string>, order: seq<string>, env: Collaborators): (o: Outcome)
    requires Enumerates(order, peers)
    ensures peers <= o.peers
    ensures o.response.None? ==> o.peers == peers && o.call == NoLedgerCall
    ensures o.call != NoLedgerCall ==> o.peers == peers && o.response.Some?
  {
    match Classify(message)
    case NewTransaction(txJson) =>
      if env.isTransactionJson(txJson) then
        Outcome(Some(TransactionAdded), peers, AddTransactionCall(txJson))
      else
        Outcome(None, peers, NoLedgerCall)
    case GetBlockToMine =>
      var reply := match env.blockToMine
        case Some(blockJson) => blockJson
        case None => NoBlockAvailable;
      Outcome(Some(reply), peers, GetBlockToMineCall)
    case MinedBlock(blockJson) =>
      if env.isBlockJson(blockJson) then
        Outcome(Some(MinedBlockAdded), peers, AddMinedBlockCall(blockJson))
      else
        Outcome(None, peers, NoLedgerCall)
    case AddPeer(peer) =>
      Outcome(Some("Peer " + peer + " added"), peers + {peer}, NoLedgerCall)
    case GetPeers =>
      Outcome(Some(PeerList(order)), peers, NoLedgerCall)
    case Unknown =>
      Outcome(Some(UnknownCommand), peers, NoLedgerCall)
  }

  /** The peers `discover_peers` adds from a bootstrap node's reply: every
      comma-separated entry after `PEER_LIST:` other than the node's own
      address; nothing if the reply has another form. */
  function Discovered(response: string, self: string): set<string> {
    if StartsWith(response, PeerListPrefix) then
      set p | p in Split(response[10..], ',') && p != self
    else
      {}
  }

  /** The entries of `parts`, in order, that are not `self`. */
  function Others(parts: seq<string>, self: string): seq<string> {
    if parts == [] then []
    else (if parts[0] != self then [parts[0]] else []) + Others(parts[1..], self)
  }

  lemma OthersStep(parts: seq<string>, i: nat, self: string)
    requires i < |parts|
    ensures Others(parts[i..], self)
         == (if parts[i] != self then [parts[i]] else []) + Others(parts[i + 1..], self)
  {
    assert parts[i..][1..] == parts[i + 1..];
  }

  lemma {:induction false} OthersMembers(parts: seq<string>, self: string)
    ensures forall p :: p in Others(parts, self) <==> p in parts && p != self
  {
    if parts != [] {
      OthersMembers(parts[1..], self);
      assert parts == [parts[0]] + parts[1..];
    }
  }

  /** The distinct entries of a sequence. */
  function Elems(s: seq<string>): set<string> {
    set p | p in s
  }

  /** One more contacted peer: both views of the loop's progress advance. */
  lemma AppendStep(done: seq<string>, peer: string, rest: seq<string>)
    ensures done + ([peer] + rest) == (done + [peer]) + rest
    ensures Elems(done + [peer]) == Elems(done) + {peer}
  {
  }

  /** The addresses `discover_peers` passes to `add_peer`, in order. */
  function Contacted(reply: Option<string>, self: string): seq<string> {
    if reply.Some? && StartsWith(reply.value, PeerListPrefix)
    then Others(Split(reply.value[10..], ','), self)
    else []
  }

  /** The peers `discover_peers` adds are exactly the discovered ones. */
  lemma ContactedAreDiscovered(reply: Option<string>, self: string)
    ensures Elems(Contacted(reply, self)) == if reply.Some? then Discovered(reply.value, self) else {}
  {
    if reply.Some? && StartsWith(reply.value, PeerListPrefix) {
      OthersMembers(Split(reply.value[10..], ','), self);
    }
  }

  // ---------------------------------------------------------------------
  // The node: its address and the peer set it updates in place

  class Node {
    const address: string
    var peers: set<string>

    /** `Node::new`: no peers yet. */
    constructor(address: string)
      ensures this.address == address && peers == {}
    {
      this.address := address;
      peers := {};
    }

    /** The dispatching part of `handle_connection`, for a message already
        read; `order` is the iteration order of the peer set. */
    method HandleConnection(message: string, order: seq<string>, env: Collaborators)
      returns (response: Option<string>, call: LedgerCall)
      requires Enumerates(order, peers)
      modifies this
      ensures response == Dispatch(message, old(peers), order, env).response
      ensures call == Dispatch(message, old(peers), order, env).call
      ensures peers == Dispatch(message, old(peers), order, env).peers
    {
      match Classify(message)
      case NewTransaction(txJson) =>
        if !env.isTransactionJson(txJson) {
          return None, NoLedgerCall;
        }
        response, call := Some(TransactionAdded), AddTransactionCall(txJson);
      case GetBlockToMine =>
        call := GetBlockToMineCall;
        match env.blockToMine {
          case Some(blockJson) => response := Some(blockJson);
          case None => response := Some(NoBlockAvailable);
        }
      case MinedBlock(blockJson) =>
        if !env.isBlockJson(blockJson) {
          return None, NoLedgerCall;
        }
        response, call := Some(MinedBlockAdded), AddMinedBlockCall(blockJson);
      case AddPeer(newPeer) =>
        peers := peers + {newPeer};
        response, call := Some("Peer " + newPeer + " added"), NoLedgerCall;
      case GetPeers =>
        response, call := Some(PeerList(order)), NoLedgerCall;
      case Unknown =>
        response, call := Some(UnknownCommand), NoLedgerCall;
    }

    /** `add_peer`: insert locally, then (best effort, outcome ignored) send
        `notice` to the new peer. */
    method AddPeer(peer: string) returns (notice: string)
      modifies this
      ensures peers == old(peers) + {peer}
      ensures notice == AddPeerPrefix + address
    {
      peers := peers + {peer};
      notice := AddPeerPrefix + address;
    }

    /** `discover_peers`, given the bootstrap node's reply to `GET_PEERS`
        (`None` when connecting, writing or reading fails). `contacted`
        lists, in order, the addresses passed to `add_peer`. */
    method DiscoverPeers(reply: Option<string>) returns (ok: bool, contacted: seq<string>)
      modifies this
      ensures ok == reply.Some?
      ensures contacted == Contacted(reply, address)
      ensures peers == old(peers) + Elems(contacted)
    {
      if reply.None? {
        return false, [];
      }
      var response := reply.value;
      if StartsWith(response, PeerListPrefix) {
        contacted := AddPeersFrom(Split(response[10..], ','));
      } else {
        contacted := [];
      }
      return true, contacted;
    }

    /** The loop of `discover_peers`: `add_peer` for every entry that is not
        this node's own address, in order. */
    method AddPeersFrom(peerList: seq<string>) returns (contacted: seq<string>)
      modifies this
      ensures contacted == Others(peerList, address)
      ensures peers == old(peers) + Elems(contacted)
    {
      contacted := [];
      var i := 0;
      while i < |peerList|
        invariant 0 <= i <= |peerList|
        invariant contacted + Others(peerList[i..], address) == Others(peerList, address)
        invariant peers == old(peers) + Elems(contacted)
      {
        var peer := peerList[i];
        OthersStep(peerList, i, address);
        if peer != address {
          var _ := AddPeer(peer);
          AppendStep(contacted, peer, Others(peerList[i + 1..], address));
          contacted := contacted + [peer];
        }
        i := i + 1;
      }
      assert peerList[i..] == [];
    }
  }

  // ---------------------------------------------------------------------
  // Properties of the dispatcher

  /** A message made of a command prefix and any text lands in that
      command's arm, with the text as its payload untouched (spaces and
      newlines included). */
  lemma PrefixSelectsCommand(rest: string)
    ensures Classify(NewTransactionPrefix + rest) == NewTransaction(rest)
    ensures Classify(GetBlockToMinePrefix + rest) == GetBlockToMine
    ensures Classify(MinedBlockPrefix + rest) == MinedBlock(rest)
    ensures Classify(AddPeerPrefix + rest) == AddPeer(rest)
  {
    Prefixed(NewTransactionPrefix, rest);
    Prefixed(GetBlockToMinePrefix, rest);
    FirstCharExcludes(GetBlockToMinePrefix + rest, NewTransactionPrefix);
    Prefixed(MinedBlockPrefix, rest);
    FirstCharExcludes(MinedBlockPrefix + rest, NewTransactionPrefix);
    FirstCharExcludes(MinedBlockPrefix + rest, GetBlockToMinePrefix);
    Prefixed(AddPeerPrefix, rest);
    FirstCharExcludes(AddPeerPrefix + rest, NewTransactionPrefix);
    FirstCharExcludes(AddPeerPrefix + rest, GetBlockToMinePrefix);
    FirstCharExcludes(AddPeerPrefix + rest, MinedBlockPrefix);
  }

  /** A prefix followed by any text: the message starts with the prefix and
      slicing the prefix off gives the text back. */
  lemma Prefixed(prefix: string, rest: string)
    requires |prefix| > 0
    ensures StartsWith(prefix + rest, prefix)
    ensures (prefix + rest)[|prefix|..] == rest && (prefix + rest)[0] == prefix[0]
  {
    assert (prefix + rest)[..|prefix|] == prefix;
  }

  /** A message whose first character differs from a prefix's does not
      start with it. */
  lemma FirstCharExcludes(m: string, prefix: string)
    requires |m| > 0 && |prefix| > 0 && m[0] != prefix[0]
    ensures !StartsWith(m, prefix)
  {
    if |prefix| <= |m| {
      assert m[..|prefix|][0] == m[0];
    }
  }


  /** `GET_PEERS` is recognised whatever whitespace surrounds it. */
  lemma GetPeersPadded(ws1: string, ws2: string)
    requires AllWhitespace(ws1) && AllWhitespace(ws2)
    ensures Classify(ws1 + GetPeersCommand + ws2) == GetPeers
  {
    TrimPadded(ws1, GetPeersCommand, ws2);
    GetPeersExactlyWhenTrimmed(ws1 + GetPeersCommand + ws2);
  }

  /** A message starting with whitespace, or with `GET_P`, matches none of
      the four prefixes. */
  lemma NoCommandPrefix(m: string)
    requires (|m| >= 1 && IsWhitespace(m[0])) || (|m| >= 5 && m[..5] == "GET_P")
    ensures !StartsWith(m, NewTransactionPrefix) && !StartsWith(m, GetBlockToMinePrefix)
    ensures !StartsWith(m, MinedBlockPrefix) && !StartsWith(m, AddPeerPrefix)
  {
    assert m[0] != 'N' && m[0] != 'M' && m[0] != 'A';
    if |m| >= 5 {
      assert m[0] != 'G' || m[4] != 'B';
    }
  }

  /** A message lands in the `GET_PEERS` arm exactly when its trimmed text
      is `GET_PEERS`: none of the four prefixes can precede it. */
  lemma GetPeersExactlyWhenTrimmed(m: string)
    ensures Classify(m) == GetPeers <==> Trim(m) == GetPeersCommand
  {
    if Trim(m) == GetPeersCommand {
      var t := TrimStart(m);
      var ws := m[..|m| - |t|];
      assert |t| >= 9 && t[..9] == GetPeersCommand;
      if ws == [] {
        assert m[..5] == t[..9][..5];
      } else {
        assert IsWhitespace(ws[0]) && m[0] == ws[0];
      }
      NoCommandPrefix(m);
    }
  }

  /** Only `ADD_PEER:` changes the peer set, and only by adding the payload. */
  lemma PeersChangeOnlyByAddPeer(message: string, peers: set<string>, order: seq<string>, env: Collaborators)
    requires Enumerates(order, peers)
    ensures var o := Dispatch(message, peers, order, env);
            if Classify(message).AddPeer? then o.peers == peers + {Classify(message).peer}
            else o.peers == peers
  {
  }

  /** `ADD_PEER:p` inserts `p` verbatim and says so; a second `ADD_PEER:p`
      leaves the set as it is. With `p` a node's own address this is the
      notice `add_peer` sends (`Node.AddPeer`'s `notice`). */
  lemma AddPeerAnswer(peer: string, peers: set<string>, order: seq<string>, env: Collaborators)
    requires Enumerates(order, peers)
    ensures var o := Dispatch(AddPeerPrefix + peer, peers, order, env);
            o.response == Some("Peer " + peer + " added")
            && o.peers == peers + {peer} && o.call == NoLedgerCall
    ensures peer in peers ==> Dispatch(AddPeerPrefix + peer, peers, order, env).peers == peers
  {
    PrefixSelectsCommand(peer);
  }

  /** `NEW_TRANSACTION:` hands the ledger exactly the text after the prefix
      and answers "Transaction added"; if the payload does not decode, the
      handler dies before touching the ledger and nothing is answered. */
  lemma NewTransactionAnswer(txJson: string, peers: set<string>, order: seq<string>, env: Collaborators)
    requires Enumerates(order, peers)
    ensures var o := Dispatch(NewTransactionPrefix + txJson, peers, order, env);
            o.peers == peers
            && (env.isTransactionJson(txJson) ==> o.response == Some(TransactionAdded) && o.call == AddTransactionCall(txJson))
            && (!env.isTransactionJson(txJson) ==> o.response == None && o.call == NoLedgerCall)
  {
    PrefixSelectsCommand(txJson);
  }

  /** `GET_BLOCK_TO_MINE` asks the ledger, and the reply is
      `NO_BLOCK_AVAILABLE` exactly when the ledger had no block (a JSON
      object never reads `NO_BLOCK_AVAILABLE`). */
  lemma GetBlockToMineAnswer(rest: string, peers: set<string>, order: seq<string>, env: Collaborators)
    requires Enumerates(order, peers)
    requires env.blockToMine.Some? ==> StartsWith(env.blockToMine.value, "{")
    ensures var o := Dispatch(GetBlockToMinePrefix + rest, peers, order, env);
            o.call == GetBlockToMineCall && o.peers == peers
            && (o.response == Some(NoBlockAvailable) <==> env.blockToMine.None?)
            && (env.blockToMine.Some? ==> o.response == env.blockToMine)
  {
    PrefixSelectsCommand(rest);
    if env.blockToMine.Some? {
      assert env.blockToMine.value[0] == '{' != NoBlockAvailable[0];
    }
  }

  /** `MINED_BLOCK:` gets the same acknowledgement whatever becomes of the
      block: the reply does not depend on the ledger at all. */
  lemma MinedBlockAlwaysAcknowledged(blockJson: string, peers: set<string>, order: seq<string>,
                                     env1: Collaborators, env2: Collaborators)
    requires Enumerates(order, peers)
    requires env1.isBlockJson(blockJson) && env2.isBlockJson(blockJson)
    ensures var o := Dispatch(MinedBlockPrefix + blockJson, peers, order, env1);
            o.response == Some(MinedBlockAdded) && o.call == AddMinedBlockCall(blockJson) && o.peers == peers
    ensures Dispatch(MinedBlockPrefix + blockJson, peers, order, env1)
         == Dispatch(MinedBlockPrefix + blockJson, peers, order, env2)
  {
    PrefixSelectsCommand(blockJson);
  }

  /** A `MINED_BLOCK:` payload that does not decode as a block kills the
      handler before the ledger is called: no answer, nothing changes. */
  lemma MinedBlockUndecodable(blockJson: string, peers: set<string>, order: seq<string>, env: Collaborators)
    requires Enumerates(order, peers)
    requires !env.isBlockJson(blockJson)
    ensures Dispatch(MinedBlockPrefix + blockJson, peers, order, env) == Outcome(None, peers, NoLedgerCall)
  {
    PrefixSelectsCommand(blockJson);
  }

  /** `GET_PEERS`, with any surrounding whitespace, lists every peer once,
      comma-separated, and changes nothing; with no peers the reply is the
      bare `PEER_LIST:`. */
  lemma GetPeersAnswer(message: string, peers: set<string>, order: seq<string>, env: Collaborators)
    requires Enumerates(order, peers)
    requires Trim(message) == GetPeersCommand
    ensures var o := Dispatch(message, peers, order, env);
            o.response == Some(PeerListPrefix + Join(order, ','))
            && o.peers == peers && o.call == NoLedgerCall
    ensures peers == {} ==> Dispatch(message, peers, order, env).response == Some(PeerListPrefix)
  {
    GetPeersExactlyWhenTrimmed(message);
    DispatchGetPeers(message, peers, order, env);
    if peers == {} {
      EnumeratesEmpty(order, peers);
      assert Join(order, ',') == [];
      assert PeerListPrefix + Join(order, ',') == PeerListPrefix;
    }
  }

  /** What the `GET_PEERS` arm answers, for any message that reaches it. */
  lemma DispatchGetPeers(message: string, peers: set<string>, order: seq<string>, env: Collaborators)
    requires Enumerates(order, peers)
    requires Classify(message) == GetPeers
    ensures Dispatch(message, peers, order, env) == Outcome(Some(PeerList(order)), peers, NoLedgerCall)
  {
  }

  /** An enumeration is empty exactly when the set is. */
  lemma EnumeratesEmpty(order: seq<string>, peers: set<string>)
    requires Enumerates(order, peers)
    ensures order == [] <==> peers == {}
  {
    if order != [] {
      assert order[0] in peers;
    }
  }

  /** A message that matches no command is answered "Unknown command" and
      changes neither the peers nor the ledger. */
  lemma UnknownAnswer(message: string, peers: set<string>, order: seq<string>, env: Collaborators)
    requires Enumerates(order, peers)
    requires !StartsWith(message, NewTransactionPrefix) && !StartsWith(message, GetBlockToMinePrefix)
    requires !StartsWith(message, MinedBlockPrefix) && !StartsWith(message, AddPeerPrefix)
    requires Trim(message) != GetPeersCommand
    ensures Dispatch(message, peers, order, env) == Outcome(Some(UnknownCommand), peers, NoLedgerCall)
  {
  }

  // ---------------------------------------------------------------------
  // Discovery against a bootstrap node's GET_PEERS reply

  /** Discovering against a node whose peers are non-empty and comma-free
      yields exactly those peers, minus the node's own address. */
  lemma {:induction false} DiscoverFromPeerList(peers: set<string>, order: seq<string>, self: string)
    requires Enumerates(order, peers) && peers != {}
    requires forall p :: p in peers ==> ',' !in p
    ensures Discovered(PeerList(order), self) == peers - {self}
  {
    assert order != [];
    assert forall i :: 0 <= i < |order| ==> ',' !in order[i] by {
      forall i | 0 <= i < |order| ensures ',' !in order[i] {
        assert order[i] in (set p | p in order);
      }
    }
    SplitJoin(order, ',');
    var reply := PeerList(order);
    assert reply[..10] == PeerListPrefix && reply[10..] == Join(order, ',');
    assert forall p :: p in peers <==> p in order by {
      forall p ensures p in peers <==> p in order {
        assert p in order ==> p in (set q | q in order);
      }
    }
  }

  /** Discovering against a node with no peers adds the empty string as a
      peer: `"".split(',')` yields one empty entry. */
  lemma DiscoverFromEmptyList(self: string)
    requires self != ""
    ensures Discovered(PeerListPrefix, self) == {""}
  {
    assert PeerListPrefix[10..] == "";
    assert Split("", ',') == [""];
  }
}
