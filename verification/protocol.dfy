/** Properties that span the tracker and the peer: the peer-list round trip
    between the tracker's encoder and the peer's decoder, what the tracker
    does with the payloads a peer sends, and the registration round trip as
    a whole. */
module Protocol {
  import opened Wrappers
  import opened JavaText
  import opened Net
  import opened Tracker
  import opened Peer

  /** An address the `:`/`,` peer-list format can carry. */
  predicate PlainAddress(a: string)
  {
    ':' !in a && ',' !in a
  }

  /** A non-empty endpoint list whose encoding decodes back: plain addresses,
      `int` ports, and a first address that `trim` leaves alone. */
  predicate Encodable(eps: seq<Endpoint>)
  {
    && |eps| > 0
    && (forall k :: 0 <= k < |eps| ==> PlainAddress(eps[k].address) && IsInt32(eps[k].port))
    && (eps[0].address == [] || !IsTrimmable(eps[0].address[0]))
  }

  // ---------------------------------------------------------------- peer-list round trip

  lemma EntryTextFields(e: Endpoint)
    requires PlainAddress(e.address)
    ensures ':' !in EntryText(e)
    ensures Split(EntryText(e), ',') == [e.address, IntToString(e.port)]
  {
    var p := IntToString(e.port);
    assert EntryText(e) == Join([e.address, p], ',');
    assert ':' !in p by {
      assert forall k :: 0 <= k < |p| ==> p[k] != ':';
    }
    assert ',' !in p by {
      assert forall k :: 0 <= k < |p| ==> p[k] != ',';
    }
    SplitOfJoin([e.address, p], ',');
  }

  /** Each entry the tracker writes is read back by the peer as the same endpoint. */
  lemma DecodeEntryOfEntryText(e: Endpoint)
    requires PlainAddress(e.address) && IsInt32(e.port)
    ensures DecodeEntry(EntryText(e)) == Success(e)
  {
    EntryTextFields(e);
    ParseIntOfIntToString(e.port);
  }

  lemma {:induction false} DecodeEntriesOfEntries(eps: seq<Endpoint>)
    requires forall k :: 0 <= k < |eps| ==> PlainAddress(eps[k].address) && IsInt32(eps[k].port)
    ensures DecodeEntries(Entries(eps)) == Success(eps)
    decreases |eps|
  {
    if |eps| > 0 {
      DecodeEntryOfEntryText(eps[0]);
      assert Entries(eps)[1..] == Entries(eps[1..]);
      DecodeEntriesOfEntries(eps[1..]);
      assert eps == [eps[0]] + eps[1..];
    }
  }

  lemma JoinFirstChar(xs: seq<string>, sep: char)
    requires |xs| > 0 && xs[0] != []
    ensures |Join(xs, sep)| > 0 && Join(xs, sep)[0] == xs[0][0]
  {
  }

  lemma EncodedPeerListFirstChar(eps: seq<Endpoint>)
    requires Encodable(eps)
    ensures var s := EncodePeerList(eps); s != [] && !IsTrimmable(s[0])
  {
    EncodePeerListIsJoin(eps);
    var e0 := EntryText(eps[0]);
    assert e0[0] == if eps[0].address == [] then ',' else eps[0].address[0];
    JoinFirstChar(Entries(eps), ':');
  }

  lemma EncodedPeerListLastChar(eps: seq<Endpoint>)
    requires |eps| > 0
    ensures var s := EncodePeerList(eps); s != [] && IsDigit(s[|s| - 1])
  {
    var n := |eps|;
    assert eps == eps[..n - 1] + [eps[n - 1]];
    EncodePeerListEndsWith(eps[..n - 1], eps[n - 1]);
    var s := EncodePeerList(eps);
    var t := EntryText(eps[n - 1]);
    assert s[|s| - 1] == t[|t| - 1];
  }

  /** The tracker's payload for an encodable list is already trimmed. */
  lemma EncodedPeerListIsTrimmed(eps: seq<Endpoint>)
    requires Encodable(eps)
    ensures Trim(EncodePeerList(eps)) == EncodePeerList(eps)
  {
    EncodedPeerListFirstChar(eps);
    EncodedPeerListLastChar(eps);
    TrimOfTrimmed(EncodePeerList(eps));
  }

  /** Splitting the tracker's payload on `:` gives back its entries. */
  lemma EncodedPeerListFields(eps: seq<Endpoint>)
    requires Encodable(eps)
    ensures Split(EncodePeerList(eps), ':') == Entries(eps)
  {
    var es := Entries(eps);
    EncodePeerListIsJoin(eps);
    forall k | 0 <= k < |es|
      ensures ':' !in es[k]
    {
      EntryTextFields(eps[k]);
    }
    SplitOfJoin(es, ':');
  }

  /** Round trip: the peer decodes the tracker's encoding of a non-empty list
      of plain endpoints back to the same list, in the same order. */
  lemma PeerListRoundTrip(eps: seq<Endpoint>)
    requires Encodable(eps)
    ensures DecodePeerList(EncodePeerList(eps)) == Success(eps)
  {
    EncodedPeerListIsTrimmed(eps);
    EncodedPeerListFields(eps);
    DecodeEntriesOfEntries(eps);
  }

  /** The round trip survives the zero bytes that fill the rest of the peer's
      1024-byte receive buffer, since `trim` removes them. */
  lemma PaddedPeerListRoundTrip(eps: seq<Endpoint>, pad: string)
    requires Encodable(eps)
    requires forall k :: 0 <= k < |pad| ==> IsTrimmable(pad[k])
    ensures DecodePeerList(EncodePeerList(eps) + pad) == Success(eps)
  {
    TrimIgnoresPadding(EncodePeerList(eps), pad);
    PeerListRoundTrip(eps);
  }

  /** The empty registry encodes to "", which the peer does not decode. */
  lemma EmptyPeerListDoesNotRoundTrip()
    ensures EncodePeerList([]) == ""
    ensures DecodePeerList(EncodePeerList([])).Failure?
  {
    DecodeEmptyPayloadFails();
  }

  // ---------------------------------------------------------------- the peer's payloads at the tracker

  /** A peer's REGISTER is stored under its exact username when the name has
      no `:` and does not end in a trimmable character. */
  lemma RegisterPayloadRegisters(reg: Registry, sender: Endpoint, username: string)
    requires username != [] && ':' !in username
    requires !IsTrimmable(username[|username| - 1])
    ensures Fields(RegisterPayload(username)) == ["REGISTER", username]
    ensures Dispatch(reg, sender, RegisterPayload(username)) == Success(Step(
      reg + [PeerRecord(sender, username)],
      Some(Datagram(sender, EncodePeerList(Endpoints(reg) + [sender])))))
  {
    var s := RegisterPayload(username);
    TrimOfTrimmed(s);
    assert s == Join(["REGISTER", username], ':');
    SplitOfJoin(["REGISTER", username], ':');
    DispatchRegister(reg, sender, s);
  }

  /** A REGISTER whose username is empty or blank leaves only the command
      field after `trim` and `split`, so the tracker's `parts[1]` throws. */
  lemma BlankUsernameCrashesTracker(reg: Registry, sender: Endpoint, username: string)
    requires forall k :: 0 <= k < |username| ==> IsTrimmable(username[k])
    ensures Fields(RegisterPayload(username)) == ["REGISTER"]
    ensures Dispatch(reg, sender, RegisterPayload(username)) == Failure(UsernameMissing)
  {
    var s := RegisterPayload(username);
    TrimKeepsPrefix(s, 9);
    var t := Trim(s);
    assert |t| == 9;
    assert t == "REGISTER" + [':'] + "";
    IndexOfAfterPrefix("REGISTER", ':', "");
    assert t[..8] == "REGISTER" && t[9..] == "";
    assert Pieces(t, ':') == ["REGISTER", ""];
    assert ["REGISTER", ""][..1] == ["REGISTER"];
  }

  /** Every UNREGISTER a peer sends, whatever its username, removes the
      sender's first record and gets no reply. */
  lemma UnregisterPayloadUnregisters(reg: Registry, sender: Endpoint, username: string)
    ensures |Fields(UnregisterPayload(username))| > 0
    ensures Fields(UnregisterPayload(username))[0] == "UNREGISTER"
    ensures Dispatch(reg, sender, UnregisterPayload(username))
      == Success(Step(RemovePeer(reg, sender), None))
  {
    var s := UnregisterPayload(username);
    TrimKeepsPrefix(s, 11);
    var t := Trim(s);
    assert t[..11] == s[..11] == "UNREGISTER:";
    var rest := t[11..];
    assert t == "UNREGISTER" + [':'] + rest;
    IndexOfAfterPrefix("UNREGISTER", ':', rest);
    var ps := Pieces(t, ':');
    assert ps == [t[..10]] + Pieces(rest, ':');
    assert ps[0] == "UNREGISTER";
    var fs := Split(t, ':');
    assert fs == DropTrailingEmpty(ps);
    assert Fields(s) == fs;
    DispatchUnregister(reg, sender, s);
  }

  // ---------------------------------------------------------------- registration round trip

  /** A fresh peer that registers from `sender` ends up with the tracker's
      whole list as its directory: the earlier endpoints in registry order,
      then its own. */
  lemma JoinInstallsSnapshot(reg: Registry, sender: Endpoint, username: string, tracker: Endpoint)
    requires username != [] && ':' !in username
    requires !IsTrimmable(username[|username| - 1])
    requires Encodable(Endpoints(reg) + [sender])
    ensures var r := Dispatch(reg, sender, RegisterPayload(username));
      && r.Success? && r.value.reply.Some?
      && HandleRegisterReply(PeerState(username, tracker, []), r.value.reply.value.payload)
         == Success(PeerState(username, tracker, Endpoints(reg) + [sender]))
  {
    RegisterPayloadRegisters(reg, sender, username);
    FreshPeerInstalls(PeerState(username, tracker, []), Endpoints(reg) + [sender]);
  }

  /** A peer with an empty directory installs exactly the encoded list. */
  lemma FreshPeerInstalls(p: PeerState, eps: seq<Endpoint>)
    requires p.directory == [] && Encodable(eps)
    ensures HandleRegisterReply(p, EncodePeerList(eps)) == Success(p.(directory := eps))
  {
    PeerListRoundTrip(eps);
    assert [] + eps == eps;
  }

  // ---------------------------------------------------------------- scenarios

  lemma EndpointsOfPair(x: PeerRecord, y: PeerRecord)
    ensures Endpoints([x]) == [x.endpoint]
    ensures Endpoints([x, y]) == [x.endpoint, y.endpoint]
  {
    assert [x, y][1..] == [y];
  }

  /** Register A and B, unregister A, register A again: the snapshots are
      [A], [A, B], [B], and then [B, A], with A appended at the end rather
      than restored to its old position. */
  lemma RegistryScenario(a: Endpoint, b: Endpoint)
    ensures Endpoints(Register([], a, "alice")) == [a]
    ensures Endpoints(Register(Register([], a, "alice"), b, "bob")) == [a, b]
    ensures Endpoints(RemovePeer(Register(Register([], a, "alice"), b, "bob"), a)) == [b]
    ensures Endpoints(Register(RemovePeer(Register(Register([], a, "alice"), b, "bob"), a), a, "alice2"))
      == [b, a]
  {
    var x, y, x' := PeerRecord(a, "alice"), PeerRecord(b, "bob"), PeerRecord(a, "alice2");
    assert Register([], a, "alice") == [x];
    assert Register([x], b, "bob") == [x, y];
    assert RemovePeer([x, y], a) == [y] by {
      assert [x, y][1..] == [y];
    }
    assert Register([y], a, "alice2") == [y, x'];
    EndpointsOfPair(x, y);
    EndpointsOfPair(y, x');
  }

  lemma DecimalPorts()
    ensures IntToString(5000) == "5000" && IntToString(6000) == "6000"
  {
    assert NatToString(5) == "5";
    assert NatToString(50) == "50";
    assert NatToString(500) == "500";
    assert NatToString(6) == "6";
    assert NatToString(60) == "60";
    assert NatToString(600) == "600";
  }

  lemma TwoPeerEntries()
    ensures EntryText(Endpoint("1.2.3.4", 5000)) == "1.2.3.4,5000"
    ensures EntryText(Endpoint("5.6.7.8", 6000)) == "5.6.7.8,6000"
  {
    DecimalPorts();
  }

  /** A two-record list is the two entries with one `:` between them. */
  lemma PairEncoding(x: Endpoint, y: Endpoint)
    ensures EncodePeerList([x, y]) == EntryText(x) + ":" + EntryText(y)
  {
    assert [x, y][1..] == [y] && [y][1..] == [];
    assert Appended([y]) == EntryText(y) + ":";
    var b := EntryText(x) + ":" + (EntryText(y) + ":");
    assert Appended([x, y]) == b;
    assert b[..|b| - 1] == EntryText(x) + ":" + EntryText(y);
  }

  lemma TwoPeerEncoding()
    ensures EncodePeerList([Endpoint("1.2.3.4", 5000), Endpoint("5.6.7.8", 6000)])
      == "1.2.3.4,5000:5.6.7.8,6000"
  {
    PairEncoding(Endpoint("1.2.3.4", 5000), Endpoint("5.6.7.8", 6000));
    TwoPeerEntries();
  }

  /** The two-peer reply decodes to its two endpoints, in order. */
  lemma DecodeScenario()
    ensures DecodePeerList("1.2.3.4,5000:5.6.7.8,6000")
      == Success([Endpoint("1.2.3.4", 5000), Endpoint("5.6.7.8", 6000)])
  {
    var eps := [Endpoint("1.2.3.4", 5000), Endpoint("5.6.7.8", 6000)];
    assert Encodable(eps);
    PeerListRoundTrip(eps);
    TwoPeerEncoding();
  }

  /** A directory of the local endpoint and one other peer sends exactly one
      datagram, to the other peer. */
  lemma BroadcastScenario(self: Endpoint, other: Endpoint)
    requires other != self
    ensures Recipients([self, other], self) == [other]
  {
    assert !IsRecipient(self, self) && IsRecipient(other, self);
    assert [self, other][1..] == [other];
    assert Recipients([self, other], self) == Recipients([other], self);
    assert [other][1..] == [];
    assert Recipients([other], self) == [other] + Recipients([], self);
  }
}
