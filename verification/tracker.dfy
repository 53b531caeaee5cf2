/** The tracker (rendezvous service): an insertion-ordered registry of peer
    records, mutated by REGISTER and UNREGISTER datagrams, and the peer-list
    encoding sent back in reply to a REGISTER. */
module Tracker {
  import opened Wrappers
  import opened JavaText
  import opened Net

  /** The tracker's `PeerInfo`: where a peer is and the name it registered with. */
  datatype PeerRecord = PeerRecord(endpoint: Endpoint, username: string)

  /** The tracker's `peers` list, in insertion order. */
  type Registry = seq<PeerRecord>

  /** The endpoints of the registry, in registry order. */
  function Endpoints(reg: Registry): (r: seq<Endpoint>)
    ensures |r| == |reg|
    ensures forall i :: 0 <= i < |reg| ==> r[i] == reg[i].endpoint
  {
    if |reg| == 0 then [] else [reg[0].endpoint] + Endpoints(reg[1..])
  }

  /** The endpoints of a concatenation are the concatenated endpoints. */
  lemma EndpointsAppend(a: Registry, b: Registry)
    ensures Endpoints(a + b) == Endpoints(a) + Endpoints(b)
  {
  }

  // ---------------------------------------------------------------- REGISTER

  /** `peers.add(new PeerInfo(...))`: appended at the end, with no check for an
      endpoint that is already registered. */
  function Register(reg: Registry, sender: Endpoint, username: string): (r: Registry)
    ensures |r| == |reg| + 1 && r[..|reg|] == reg
    ensures r[|reg|].endpoint == sender && r[|reg|].username == username
  {
    reg + [PeerRecord(sender, username)]
  }

  /** REGISTER adds one record of the sender and leaves every other endpoint's
      records as they were. */
  lemma RegisterCounts(reg: Registry, sender: Endpoint, username: string)
    ensures multiset(Endpoints(Register(reg, sender, username)))
      == multiset(Endpoints(reg)) + multiset{sender}
  {
    EndpointsAppend(reg, [PeerRecord(sender, username)]);
  }

  /** REGISTER does not deduplicate: registering the same endpoint twice leaves
      two more records for it than before. */
  lemma RegisterTwiceKeepsBoth(reg: Registry, e: Endpoint, u1: string, u2: string)
    ensures var twice := Register(Register(reg, e, u1), e, u2);
      multiset(Endpoints(twice))[e] == multiset(Endpoints(reg))[e] + 2
      && twice[|reg|] == PeerRecord(e, u1) && twice[|reg| + 1] == PeerRecord(e, u2)
  {
    RegisterCounts(reg, e, u1);
    RegisterCounts(Register(reg, e, u1), e, u2);
  }

  // ---------------------------------------------------------------- UNREGISTER

  /** `removePeer`: the loop finds the first record whose address and port
      both match, and that record (if any) is removed from the list. */
  function RemovePeer(reg: Registry, e: Endpoint): (r: Registry)
    ensures |r| <= |reg|
    ensures forall x :: x in r ==> x in reg
    decreases |reg|
  {
    if |reg| == 0 then reg
    else if reg[0].endpoint.address == e.address && reg[0].endpoint.port == e.port then reg[1..]
    else [reg[0]] + RemovePeer(reg[1..], e)
  }

  /** UNREGISTER takes away one record of the endpoint when there is one, and
      leaves every other endpoint's records as they were. */
  lemma {:induction false} RemovePeerCounts(reg: Registry, e: Endpoint)
    ensures multiset(Endpoints(RemovePeer(reg, e))) == multiset(Endpoints(reg)) - multiset{e}
    decreases |reg|
  {
    if |reg| > 0 {
      var h := reg[0].endpoint;
      assert Endpoints(reg) == [h] + Endpoints(reg[1..]);
      if h.address == e.address && h.port == e.port {
        assert h == e && RemovePeer(reg, e) == reg[1..];
      } else {
        RemovePeerCounts(reg[1..], e);
        var t := RemovePeer(reg[1..], e);
        assert RemovePeer(reg, e) == [reg[0]] + t;
        EndpointsAppend([reg[0]], t);
      }
    }
  }

  /** Only the FIRST matching record goes; every other record stays, in order. */
  lemma {:induction false} RemovePeerRemovesFirstMatch(reg: Registry, e: Endpoint, i: nat)
    requires i < |reg| && reg[i].endpoint == e
    requires forall j :: 0 <= j < i ==> reg[j].endpoint != e
    ensures RemovePeer(reg, e) == reg[..i] + reg[i + 1..]
    decreases i
  {
    if i > 0 {
      assert reg[0].endpoint != e;
      assert RemovePeer(reg, e) == [reg[0]] + RemovePeer(reg[1..], e);
      RemovePeerRemovesFirstMatch(reg[1..], e, i - 1);
      assert reg[..i] == [reg[0]] + reg[1..][..i - 1];
      assert reg[1..][i..] == reg[i + 1..];
    }
  }

  /** Removing an endpoint that is not registered changes nothing (and is not an error). */
  lemma {:induction false} RemovePeerAbsent(reg: Registry, e: Endpoint)
    requires forall j :: 0 <= j < |reg| ==> reg[j].endpoint != e
    ensures RemovePeer(reg, e) == reg
    decreases |reg|
  {
    if |reg| > 0 {
      RemovePeerAbsent(reg[1..], e);
      assert reg == [reg[0]] + reg[1..];
    }
  }

  // ---------------------------------------------------------------- peer list

  /** One peer-list entry: `address + "," + port`. */
  function EntryText(e: Endpoint): (r: string)
    ensures |r| > |e.address| + 1 && IsDigit(r[|r| - 1])
    ensures r[..|e.address|] == e.address && r[|e.address|] == ','
    ensures r[|e.address| + 1..] == IntToString(e.port)
  {
    e.address + "," + IntToString(e.port)
  }

  function Entries(eps: seq<Endpoint>): (r: seq<string>)
    ensures |r| == |eps|
    ensures forall i :: 0 <= i < |eps| ==> r[i] == EntryText(eps[i])
  {
    if |eps| == 0 then [] else [EntryText(eps[0])] + Entries(eps[1..])
  }

  /** The StringBuilder after `sendPeerList`'s loop: every entry followed by `:`. */
  function Appended(eps: seq<Endpoint>): string
  {
    if |eps| == 0 then "" else EntryText(eps[0]) + ":" + Appended(eps[1..])
  }

  /** `sendPeerList`'s payload: the appended entries with the last character
      deleted when there is one. Only the empty list encodes to "". */
  function EncodePeerList(eps: seq<Endpoint>): (r: string)
    ensures r == "" <==> eps == []
  {
    var b := Appended(eps);
    if |b| > 0 then b[..|b| - 1] else b
  }

  lemma {:induction false} AppendedIsJoin(eps: seq<Endpoint>)
    requires |eps| > 0
    ensures Appended(eps) == Join(Entries(eps), ':') + ":"
    decreases |eps|
  {
    if |eps| > 1 {
      AppendedIsJoin(eps[1..]);
      assert Entries(eps)[1..] == Entries(eps[1..]);
    }
  }

  /** The append-then-delete-last encoding is exactly the entries joined by
      `:`, with no trailing separator. */
  lemma EncodePeerListIsJoin(eps: seq<Endpoint>)
    ensures EncodePeerList(eps) == Join(Entries(eps), ':')
  {
    if |eps| > 0 {
      AppendedIsJoin(eps);
      var j := Join(Entries(eps), ':');
      assert (j + ":")[..|j + ":"| - 1] == j;
    }
  }

  /** The peer list of a registry with `sender` last ends with `sender`'s entry. */
  lemma EncodePeerListEndsWith(eps: seq<Endpoint>, sender: Endpoint)
    ensures EndsWith(EncodePeerList(eps + [sender]), EntryText(sender))
  {
    EncodePeerListIsJoin(eps + [sender]);
    var es := Entries(eps + [sender]);
    var t := EntryText(sender);
    if |eps| > 0 {
      assert es == Entries(eps) + [t];
      JoinSnoc(Entries(eps), ':', t);
    } else {
      assert es == [t];
    }
  }

  // ---------------------------------------------------------------- dispatch

  /** The unchecked exceptions that escape `start` and end the tracker. */
  datatype Crash =
    | CommandMissing    // `parts[0]` on an empty split result (payload ":" and the like)
    | UsernameMissing   // `parts[1]` on a REGISTER with no second field

  /** What one datagram does: the new registry and the reply, if any. */
  datatype Step = Step(registry: Registry, reply: Option<Datagram>)

  /** The `:`-separated fields of an inbound payload after `trim`. */
  function Fields(payload: string): seq<string>
  {
    Split(Trim(payload), ':')
  }

  /** A payload on which the tracker's dispatch indexes past the field array. */
  predicate Fatal(payload: string)
  {
    var parts := Fields(payload);
    |parts| == 0 || (parts[0] == "REGISTER" && |parts| < 2)
  }

  /** The payloads that make the dispatch throw: after `trim`, either nothing
      but colons (no field for `parts[0]`), or the bare command `REGISTER`
      with no further field (no `parts[1]`). */
  lemma FatalPayloads(payload: string)
    ensures Fatal(payload) <==>
      || (|Trim(payload)| > 0 && forall k :: 0 <= k < |Trim(payload)| ==> Trim(payload)[k] == ':')
      || Fields(payload) == ["REGISTER"]
  {
    SplitEmptyIffSeparatorsOnly(Trim(payload), ':');
  }

  /** One iteration of the loop in `start`, minus the socket I/O. */
  function Dispatch(reg: Registry, sender: Endpoint, payload: string): (r: Result<Step, Crash>)
    ensures r.Failure? <==> Fatal(payload)
    ensures r.Success? ==> (r.value.reply.Some? <==> Fields(payload)[0] == "REGISTER")
    ensures r.Success? && r.value.reply.Some? ==>
      r.value.reply.value.to == sender && r.value.reply.value.payload != ""
  {
    var parts := Fields(payload);
    if |parts| == 0 then Failure(CommandMissing)
    else if parts[0] == "REGISTER" then
      if |parts| < 2 then Failure(UsernameMissing)
      else
        var reg' := Register(reg, sender, parts[1]);
        Success(Step(reg', Some(Datagram(sender, EncodePeerList(Endpoints(reg'))))))
    else if parts[0] == "UNREGISTER" then
      Success(Step(RemovePeer(reg, sender), None))
    else
      Success(Step(reg, None))
  }

  /** A REGISTER appends exactly one record holding the second field as the
      username, and the reply is the new snapshot, ending with the sender. */
  lemma DispatchRegister(reg: Registry, sender: Endpoint, payload: string)
    requires |Fields(payload)| >= 2 && Fields(payload)[0] == "REGISTER"
    ensures Dispatch(reg, sender, payload) == Success(Step(
      reg + [PeerRecord(sender, Fields(payload)[1])],
      Some(Datagram(sender, EncodePeerList(Endpoints(reg) + [sender])))))
    ensures EndsWith(EncodePeerList(Endpoints(reg) + [sender]), EntryText(sender))
  {
    var x := PeerRecord(sender, Fields(payload)[1]);
    var reg' := Register(reg, sender, x.username);
    assert reg' == reg + [x];
    EndpointsAppend(reg, [x]);
    assert Endpoints([x]) == [sender];
    assert Endpoints(reg') == Endpoints(reg) + [sender];
    EncodePeerListEndsWith(Endpoints(reg), sender);
  }

  /** An UNREGISTER removes the sender's first record and sends no reply. */
  lemma DispatchUnregister(reg: Registry, sender: Endpoint, payload: string)
    requires |Fields(payload)| >= 1 && Fields(payload)[0] == "UNREGISTER"
    ensures Dispatch(reg, sender, payload) == Success(Step(RemovePeer(reg, sender), None))
  {
  }

  /** Any other command is ignored: the registry is unchanged and nothing is sent. */
  lemma DispatchOther(reg: Registry, sender: Endpoint, payload: string)
    requires |Fields(payload)| >= 1
    requires Fields(payload)[0] != "REGISTER" && Fields(payload)[0] != "UNREGISTER"
    ensures Dispatch(reg, sender, payload) == Success(Step(reg, None))
  {
  }

  /** The zero-filled rest of the 1024-byte receive buffer does not change
      what the tracker does with a datagram. */
  lemma DispatchIgnoresPadding(reg: Registry, sender: Endpoint, payload: string, pad: string)
    requires forall k :: 0 <= k < |pad| ==> IsTrimmable(pad[k])
    ensures Dispatch(reg, sender, payload + pad) == Dispatch(reg, sender, payload)
  {
    TrimIgnoresPadding(payload, pad);
  }

  /** A payload of separators only leaves no command field, so `parts[0]` throws. */
  lemma SeparatorOnlyPayloadIsFatal(reg: Registry, sender: Endpoint)
    ensures Dispatch(reg, sender, ":") == Failure(CommandMissing)
  {
    assert Trim(":") == ":";
    IndexOfAfterPrefix("", ':', "");
    assert Pieces(":", ':') == [""] + Pieces("", ':');
    assert Split(":", ':') == [];
  }

  // ---------------------------------------------------------------- service loop

  /** What the service leaves behind after a run: the registry, the replies
      sent in order, and the exception that ended it, if any. */
  datatype Outcome = Outcome(registry: Registry, replies: seq<Datagram>, crash: Option<Crash>)

  /** The reply a step sends, as a (possibly empty) sequence. */
  function Sent(st: Step): (r: seq<Datagram>)
    ensures |r| <= 1 && (r != [] <==> st.reply.Some?)
  {
    if st.reply.Some? then [st.reply.value] else []
  }

  /** Reference semantics of the `while (true)` loop of `start` from the
      `i`-th inbound datagram on: dispatch each datagram in arrival order; an
      exception ends the service. */
  function Run(reg: Registry, inbox: seq<Inbound>, i: nat): (o: Outcome)
    requires i <= |inbox|
    ensures |o.replies| <= |inbox| - i
    decreases |inbox| - i
  {
    if i == |inbox| then Outcome(reg, [], None)
    else
      match Dispatch(reg, inbox[i].from, inbox[i].payload)
      case Failure(c) => Outcome(reg, [], Some(c))
      case Success(st) =>
        var rest := Run(st.registry, inbox, i + 1);
        Outcome(rest.registry, Sent(st) + rest.replies, rest.crash)
  }

  /** The endpoints that sent some datagram of `inbox`. */
  function Senders(inbox: seq<Inbound>): set<Endpoint>
  {
    set k | 0 <= k < |inbox| :: inbox[k].from
  }

  /** The service stops early exactly when some remaining datagram would make
      the dispatch throw. */
  lemma {:induction false} RunCrashesIffFatal(reg: Registry, inbox: seq<Inbound>, i: nat)
    requires i <= |inbox|
    ensures Run(reg, inbox, i).crash.None? <==>
      forall k :: i <= k < |inbox| ==> !Fatal(inbox[k].payload)
    decreases |inbox| - i
  {
    if i < |inbox| {
      var r := Dispatch(reg, inbox[i].from, inbox[i].payload);
      if r.Success? {
        RunCrashesIffFatal(r.value.registry, inbox, i + 1);
        assert Run(reg, inbox, i).crash == Run(r.value.registry, inbox, i + 1).crash;
        assert !Fatal(inbox[i].payload);
        assert (forall k :: i <= k < |inbox| ==> !Fatal(inbox[k].payload))
          <==> (forall k :: i + 1 <= k < |inbox| ==> !Fatal(inbox[k].payload));
      } else {
        assert Run(reg, inbox, i).crash.Some?;
        assert Fatal(inbox[i].payload);
      }
    }
  }

  /** Every reply goes back to an endpoint that sent a datagram, and none is empty. */
  lemma {:induction false} RunRepliesToSenders(reg: Registry, inbox: seq<Inbound>, i: nat)
    requires i <= |inbox|
    ensures forall m :: m in Run(reg, inbox, i).replies ==> m.to in Senders(inbox) && m.payload != ""
    decreases |inbox| - i
  {
    if i < |inbox| {
      var r := Dispatch(reg, inbox[i].from, inbox[i].payload);
      if r.Success? {
        RunRepliesToSenders(r.value.registry, inbox, i + 1);
        assert inbox[i].from in Senders(inbox);
      }
    }
  }

  /** Every record left in the registry was there at the start or belongs to
      an endpoint that sent a datagram. */
  lemma {:induction false} RunKeepsOrigins(reg: Registry, inbox: seq<Inbound>, i: nat)
    requires i <= |inbox|
    ensures forall x :: x in Run(reg, inbox, i).registry ==> x in reg || x.endpoint in Senders(inbox)
    decreases |inbox| - i
  {
    if i < |inbox| {
      var r := Dispatch(reg, inbox[i].from, inbox[i].payload);
      if r.Success? {
        RunKeepsOrigins(r.value.registry, inbox, i + 1);
        DispatchRecords(reg, inbox[i].from, inbox[i].payload);
        assert inbox[i].from in Senders(inbox);
      }
    }
  }

  /** A dispatch keeps old records or adds one of the sender. */
  lemma DispatchRecords(reg: Registry, sender: Endpoint, payload: string)
    ensures var r := Dispatch(reg, sender, payload);
      r.Success? ==> forall x :: x in r.value.registry ==> x in reg || x.endpoint == sender
  {
  }

  /** The loop of `start` over a finite run of inbound datagrams. */
  method Serve(reg0: Registry, inbox: seq<Inbound>) returns (o: Outcome)
    ensures o == Run(reg0, inbox, 0)
  {
    ghost var whole := Run(reg0, inbox, 0);
    var reg, replies, i := reg0, [], 0;
    while i < |inbox|
      invariant i <= |inbox| && Resumes(whole, replies, Run(reg, inbox, i))
    {
      var r := Dispatch(reg, inbox[i].from, inbox[i].payload);
      ResumeStep(whole, replies, reg, inbox, i);
      if r.Failure? {
        return Outcome(reg, replies, Some(r.error));
      }
      replies, reg, i := replies + Sent(r.value), r.value.registry, i + 1;
    }
    ResumeDone(whole, replies, reg, inbox);
    return Outcome(reg, replies, None);
  }

  /** `whole` is the outcome of a run that has sent `done` and still has to
      produce `rest`. */
  predicate Resumes(whole: Outcome, done: seq<Datagram>, rest: Outcome)
  {
    whole == Outcome(rest.registry, done + rest.replies, rest.crash)
  }

  /** One turn of the loop keeps `Resumes`, or ends the run with the exception. */
  lemma ResumeStep(whole: Outcome, done: seq<Datagram>, reg: Registry, inbox: seq<Inbound>, i: nat)
    requires i < |inbox| && Resumes(whole, done, Run(reg, inbox, i))
    ensures var r := Dispatch(reg, inbox[i].from, inbox[i].payload);
      && (r.Failure? ==> whole == Outcome(reg, done, Some(r.error)))
      && (r.Success? ==> Resumes(whole, done + Sent(r.value), Run(r.value.registry, inbox, i + 1)))
  {
    var r := Dispatch(reg, inbox[i].from, inbox[i].payload);
    if r.Failure? {
      assert done + [] == done;
    } else {
      var rest := Run(r.value.registry, inbox, i + 1);
      assert done + (Sent(r.value) + rest.replies) == (done + Sent(r.value)) + rest.replies;
    }
  }

  /** With nothing left to receive, the run so far is the whole run. */
  lemma ResumeDone(whole: Outcome, done: seq<Datagram>, reg: Registry, inbox: seq<Inbound>)
    requires Resumes(whole, done, Run(reg, inbox, |inbox|))
    ensures whole == Outcome(reg, done, None)
  {
    assert done + [] == done;
  }
}
