/** The peer (participant) side: the REGISTER/UNREGISTER payloads it sends to
    the tracker, the decoding of the tracker's peer-list reply into its
    directory, and the fan-out of a timestamped chat line to every directory
    entry except its own endpoint. */
module Peer {
  import opened Wrappers
  import opened JavaText
  import opened Net

  /** The peer's `peers` list: endpoints in the order the tracker sent them. */
  type Directory = seq<Endpoint>

  /** The peer's state: its name, where the tracker is, and its directory. */
  datatype PeerState = PeerState(username: string, tracker: Endpoint, directory: Directory)

  /** The unchecked exceptions thrown while decoding the tracker's reply. None
      is caught by `startChat` or `main`, so each one ends the peer. */
  datatype DecodeError =
    | AddressMissing  // `parts[0]` on an entry of commas only, which splits into no fields
    | PortMissing     // `parts[1]` on an entry with exactly one `,`-field
    | PortNotNumeric  // NumberFormatException from `Integer.parseInt`

  // ---------------------------------------------------------------- payloads

  function RegisterPayload(username: string): string
  {
    "REGISTER:" + username
  }

  function UnregisterPayload(username: string): string
  {
    "UNREGISTER:" + username
  }

  /** The datagram `registerWithTracker` sends. */
  function RegisterRequest(p: PeerState): (d: Datagram)
    ensures d.to == p.tracker
    ensures |d.payload| == 9 + |p.username|
    ensures d.payload[..9] == "REGISTER:" && d.payload[9..] == p.username
  {
    Datagram(p.tracker, RegisterPayload(p.username))
  }

  /** The datagram `unregisterFromTracker` sends. */
  function UnregisterRequest(p: PeerState): (d: Datagram)
    ensures d.to == p.tracker
    ensures |d.payload| == 11 + |p.username|
    ensures d.payload[..11] == "UNREGISTER:" && d.payload[11..] == p.username
  {
    Datagram(p.tracker, UnregisterPayload(p.username))
  }

  // ---------------------------------------------------------------- peer list

  /** One entry of the peer list: field 0 is the address, field 1 the port;
      further fields are ignored. */
  function DecodeEntry(entry: string): (r: Result<Endpoint, DecodeError>)
    ensures r.Success? ==> IsInt32(r.value.port) && ',' !in r.value.address
    ensures r.Failure? <==>
      |Split(entry, ',')| < 2 || ParseInt(Split(entry, ',')[1]).None?
    ensures r == Failure(AddressMissing) <==> Split(entry, ',') == []
  {
    var parts := Split(entry, ',');
    if |parts| == 0 then Failure(AddressMissing)
    else if |parts| == 1 then Failure(PortMissing)
    else
      match ParseInt(parts[1])
      case None => Failure(PortNotNumeric)
      case Some(port) => Success(Endpoint(parts[0], port))
  }

  /** The loop of `registerWithTracker`: every entry decoded and appended in
      order; the first entry that fails ends the decoding with its error. */
  function DecodeEntries(entries: seq<string>): (r: Result<Directory, DecodeError>)
    ensures r.Success? ==>
      && |r.value| == |entries|
      && forall k :: 0 <= k < |entries| ==> DecodeEntry(entries[k]) == Success(r.value[k])
    ensures r.Failure? ==>
      exists k :: && 0 <= k < |entries|
                  && DecodeEntry(entries[k]) == Failure(r.error)
                  && forall j :: 0 <= j < k ==> DecodeEntry(entries[j]).Success?
    decreases |entries|
  {
    if |entries| == 0 then Success([])
    else
      match DecodeEntry(entries[0])
      case Failure(e) => Failure(e)
      case Success(ep) =>
        match DecodeEntries(entries[1..])
        case Failure(e) =>
          Failure(e)
        case Success(rest) => Success([ep] + rest)
  }

  /** The reply to REGISTER as the peer reads it: trimmed, split on `:`, and
      every entry decoded in payload order. */
  function DecodePeerList(payload: string): (r: Result<Directory, DecodeError>)
    ensures r.Success? ==> forall k :: 0 <= k < |r.value| ==>
      ':' !in r.value[k].address && ',' !in r.value[k].address && IsInt32(r.value[k].port)
  {
    var entries := Split(Trim(payload), ':');
    var r := DecodeEntries(entries);
    assert r.Success? ==> forall k :: 0 <= k < |r.value| ==>
      DecodeEntry(entries[k]) == Success(r.value[k]) && ':' !in entries[k];
    r
  }

  /** The empty payload is not the empty list: its one entry "" has no port
      field, so `parts[1]` throws. */
  lemma DecodeEmptyPayloadFails()
    ensures DecodePeerList("") == Failure(PortMissing)
  {
    assert Trim("") == "";
    assert Split("", ':') == [""];
    assert Split("", ',') == [""];
  }

  /** A payload of separators only splits into no entries at all, so it
      decodes to the empty directory. */
  lemma SeparatorOnlyPayloadIsEmpty()
    ensures DecodePeerList(":") == Success([])
  {
    assert Trim(":") == ":";
    IndexOfAfterPrefix("", ':', "");
    assert Pieces(":", ':') == [""] + Pieces("", ':');
    assert Pieces(":", ':') == ["", ""];
    assert Split(":", ':') == [];
  }

  /** The payloads that decode to the empty directory are exactly those
      that are nothing but colons once trimmed. */
  lemma EmptyDirectoryPayloads(payload: string)
    ensures DecodePeerList(payload) == Success([]) <==>
      |Trim(payload)| > 0 && forall k :: 0 <= k < |Trim(payload)| ==> Trim(payload)[k] == ':'
  {
    SplitEmptyIffSeparatorsOnly(Trim(payload), ':');
  }

  /** An entry of commas only has no address field: `parts[0]` throws. */
  lemma CommaOnlyEntryHasNoAddress()
    ensures DecodeEntry(",") == Failure(AddressMissing)
    ensures DecodeEntry(",,") == Failure(AddressMissing)
  {
    SplitEmptyIffSeparatorsOnly(",", ',');
    SplitEmptyIffSeparatorsOnly(",,", ',');
  }

  /** `registerWithTracker` after its send: the decoded entries are appended
      to the directory. A decoding error is returned as the exception that
      ends the peer; the entries Java appended before the failing one are not
      kept, since no later step of the peer can observe them. */
  function HandleRegisterReply(p: PeerState, reply: string): (r: Result<PeerState, DecodeError>)
    ensures r.Success? <==> DecodePeerList(reply).Success?
    ensures r.Success? ==>
      && r.value.username == p.username
      && r.value.tracker == p.tracker
      && r.value.directory == p.directory + DecodePeerList(reply).value
  {
    match DecodePeerList(reply)
    case Failure(e) => Failure(e)
    case Success(entries) => Success(p.(directory := p.directory + entries))
  }

  // ---------------------------------------------------------------- broadcast

  /** The chat line `sendMessageToPeers` builds once per message. */
  function ChatLine(timestamp: string, username: string, message: string): (line: string)
    ensures |line| == |timestamp| + |username| + |message| + 5
    ensures line[0] == '[' && line[1..1 + |timestamp|] == timestamp
    ensures line[1 + |timestamp|..3 + |timestamp|] == "] "
    ensures line[3 + |timestamp|..3 + |timestamp| + |username|] == username
    ensures line[|line| - |message| - 2..|line| - |message|] == ": "
    ensures line[|line| - |message|..] == message
  {
    "[" + timestamp + "] " + username + ": " + message
  }

  /** The condition under which `sendMessageToPeers` sends to `e`: its
      address or its port differs from the local endpoint's. */
  predicate IsRecipient(e: Endpoint, self: Endpoint)
  {
    e.address != self.address || e.port != self.port
  }

  /** The directory entries the loop sends to, in directory order. */
  function Recipients(dir: Directory, self: Endpoint): (r: seq<Endpoint>)
    ensures forall e :: e in r <==> e in dir && e != self
    ensures forall e :: multiset(r)[e] == if e == self then 0 else multiset(dir)[e]
    decreases |dir|
  {
    if |dir| == 0 then []
    else
      assert dir == [dir[0]] + dir[1..];
      if IsRecipient(dir[0], self) then [dir[0]] + Recipients(dir[1..], self)
      else Recipients(dir[1..], self)
  }

  /** Filtering commutes with concatenation, so the recipients keep the
      directory's relative order. */
  lemma {:induction false} RecipientsAppend(a: Directory, b: Directory, self: Endpoint)
    ensures Recipients(a + b, self) == Recipients(a, self) + Recipients(b, self)
    decreases |a|
  {
    if |a| == 0 {
      assert a + b == b;
    } else {
      assert (a + b)[0] == a[0];
      assert (a + b)[1..] == a[1..] + b;
      RecipientsAppend(a[1..], b, self);
    }
  }

  /** Self-exclusion is the only filtering: a directory without the local
      endpoint is sent to in full. */
  lemma {:induction false} RecipientsWithoutSelf(dir: Directory, self: Endpoint)
    requires self !in dir
    ensures Recipients(dir, self) == dir
    decreases |dir|
  {
    if |dir| > 0 {
      RecipientsWithoutSelf(dir[1..], self);
    }
  }

  /** When no directory entry has the local address, as with the wildcard
      address an unbound `new DatagramSocket()` reports, every entry is a
      recipient, the peer's own included. */
  lemma ForeignLocalAddressSendsToAll(dir: Directory, self: Endpoint)
    requires forall k :: 0 <= k < |dir| ==> dir[k].address != self.address
    ensures Recipients(dir, self) == dir
  {
    RecipientsWithoutSelf(dir, self);
  }

  /** `sendMessageToPeers`: one datagram with the same chat line to every
      directory entry that is not the local endpoint, in directory order.
      `self` stands for the socket's local address and port, and
      `timestamp` for the formatted `new Date()`. */
  method SendMessageToPeers(p: PeerState, self: Endpoint, timestamp: string, message: string)
    returns (sends: seq<Datagram>)
    ensures |sends| == |Recipients(p.directory, self)|
    ensures forall k :: 0 <= k < |sends| ==>
      sends[k] == Datagram(Recipients(p.directory, self)[k], ChatLine(timestamp, p.username, message))
    ensures forall k :: 0 <= k < |sends| ==> sends[k].to != self && sends[k].to in p.directory
  {
    var line := ChatLine(timestamp, p.username, message);
    sends := [];
    var i := 0;
    while i < |p.directory|
      invariant 0 <= i <= |p.directory|
      invariant |sends| == |Recipients(p.directory[..i], self)|
      invariant forall k :: 0 <= k < |sends| ==>
        sends[k] == Datagram(Recipients(p.directory[..i], self)[k], line)
    {
      var peer := p.directory[i];
      RecipientsAppend(p.directory[..i], [peer], self);
      assert p.directory[..i + 1] == p.directory[..i] + [peer];
      if IsRecipient(peer, self) {
        sends := sends + [Datagram(peer, line)];
      }
      i := i + 1;
    }
    assert p.directory[..i] == p.directory;
    assert forall k :: 0 <= k < |sends| ==> sends[k].to in Recipients(p.directory, self);
  }
}
