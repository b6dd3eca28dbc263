/** Worked cases of the roster rules, checked by the verifier from the contracts alone,
    as a client of `Simulator.Roster` sees them. */
module Scenarios {
  import opened Wire
  import opened Dictionary
  import opened Reconcile
  import opened Simulator

  /** The `me` record the simulator is configured with. */
  const Me := Member("127.0.0.1", 60000, Some("masquerader"), Some("mac"), Some("10.15.6"),
                     Some("ProPresenter 7.8"), Some(""), false)

  const Peer := Endpoint("10.0.0.5", 60157)

  /** An admission request received by an empty roster stores the newcomer as a bare,
      disconnected entry. */
  method AdmissionOfNewcomer(now: Timestamp) {
    var r := new Roster(Me);
    var _ := r.AddMember(Some(AddMemberBody(Bare(Peer))), now);
    var d := Empty<Member>().Put(Peer.ip, Bare(Peer));
    assert r.membersByIp == d;
    assert d.keys == [Peer.ip] && d.entries[Peer.ip] == Bare(Peer);
    assert !r.membersByIp.entries[Peer.ip].connected;
  }

  /** The roster holding only the bare entry for `Peer` lists that entry alone ... */
  lemma PeerOnlyListed()
    ensures Empty<Member>().Put(Peer.ip, Bare(Peer)).Values() == [Bare(Peer)]
  {
    assert Empty<Member>().Put(Peer.ip, Bare(Peer)).keys == [Peer.ip];
  }

  /** ... and its pairs are `Peer` alone. */
  lemma PeerOnlyPairs()
    ensures Endpoints([Bare(Peer)]) == [Peer]
  {
    assert Endpoints([]) == [];
  }

  /** ... and replies with a definition that lists exactly that member. */
  method AdmissionReply(now: Timestamp) {
    var r := new Roster(Me);
    PeerOnlyListed();
    PeerOnlyPairs();
    var reply := r.AddMember(Some(AddMemberBody(Bare(Peer))), now);
    assert r.members == [Bare(Peer)];
    assert reply.value.groupDefinitionPascal.value.members == [Peer];
  }

  /** A malformed admission body changes nothing and is answered with an empty body. */
  method MalformedAdmission(now: Timestamp) {
    var r := new Roster(Me);
    var reply := r.HandleRequest(AddMemberPath, None, now);
    assert reply == None;
    assert r.membersByIp == Empty();
  }

  /** A heartbeat reply carrying the peer's own status record installs that record and
      then marks the peer connected. */
  method HeartbeatInstallsStatus(now: Timestamp) {
    var r := new Roster(Me);
    var _ := r.AddMember(Some(AddMemberBody(Bare(Peer))), now);
    var probes := r.Heartbeat();
    assert EndpointOf(r.members[0]) == Peer;
    assert Peer in probes;
    var status := Member(Peer.ip, Peer.port, Some("x"), None, None, None, None, false);
    var env := Envelope(Some(GroupDefinition(None, "", "G", [Peer])), None, Some("x"), Some(status));
    r.OnHeartbeatOutcome(Peer.ip, Reply(env));
    assert r.membersByIp.entries[Peer.ip] == status.(connected := true);
    assert r.name == "G";
  }

  /** A refused heartbeat marks only the probed member disconnected. */
  method RefusedHeartbeat(now: Timestamp) {
    var r := new Roster(Me);
    r.StartStandalone(now);
    var _ := r.AddMember(Some(AddMemberBody(Bare(Peer).(connected := true))), now);
    r.OnHeartbeatOutcome(Peer.ip, ConnRefused);
    assert !r.membersByIp.entries[Peer.ip].connected;
    assert r.membersByIp.entries[Me.ip] == Me.(connected := true);
  }

  /** A bootstrap peer that already lists us: success is signalled at the status step, and
      again after the admission request that is still sent. */
  method JoinWhenAlreadyListed(now: Timestamp) {
    var r := new Roster(Me);
    var def := GroupDefinition(None, "", "G", [Peer, Endpoint(Me.ip, Me.port)]);
    var status := Envelope(Some(def), None, Some("paul"), None);
    var admission := Envelope(None, Some(def), None, None);
    assert Me.ip in AfterStatusReply(r.membersByIp, status).entries;
    var signals := r.Join(Reply(status), Reply(admission));
    assert signals == [Joined, Joined];
    assert r.me.connected && r.membersByIp.entries[Me.ip] == r.me;
  }

  /** A definition that lists a peer and then our own ip. */
  const PeerAndMe := GroupDefinition(None, "", "G", [Peer, Endpoint(Me.ip, Me.port)])

  /** Merged into `{}`, it yields one bare entry per pair, in order; merging it again
      changes nothing. */
  lemma PeerAndMeRoster()
    ensures var after := AfterStatusReply(Empty(), Envelope(Some(PeerAndMe), None, Some("paul"), None));
      && Merged(after, Envelope(None, Some(PeerAndMe), None, None)) == after
      && after.Values() == [Bare(Peer), Bare(Endpoint(Me.ip, Me.port))]
  {
    var eps := PeerAndMe.members;
    var after := InsertBare(Empty(), eps);
    InsertBareFresh(Empty(), eps);
    InsertBareFreshEntries(Empty(), eps);
    InsertBareAllKnown(after, eps);
    assert after.keys == [Peer.ip, Me.ip];
  }

  /** ... while the list keeps the bare entry the merge built for our own ip, since the
      admission step stores `me` without rebuilding the list: `status()` then sends the
      port the peer listed for us. */
  method JoinLeavesListStale() {
    var r := new Roster(Me);
    var status := Envelope(Some(PeerAndMe), None, Some("paul"), None);
    var admission := Envelope(None, Some(PeerAndMe), None, None);
    PeerAndMeRoster();
    var _ := r.Join(Reply(status), Reply(admission));
    assert r.members == [Bare(Peer), Bare(Endpoint(Me.ip, Me.port))];
  }

  /** A bootstrap peer whose roster never includes us: the join fails after admission. */
  method JoinRejected(now: Timestamp) {
    var r := new Roster(Me);
    var def := GroupDefinition(None, "", "G", [Peer]);
    var status := Envelope(Some(def), None, Some("paul"), None);
    var admission := Envelope(None, Some(def), None, None);
    assert IpSet(def.members) == {Peer.ip};
    MergeKeys(r.membersByIp, status);
    var afterStatus := AfterStatusReply(r.membersByIp, status);
    assert afterStatus.entries.Keys == {Peer.ip};
    MergeKeys(afterStatus, admission);
    assert Me.ip !in Merged(afterStatus, admission).entries;
    var signals := r.Join(Reply(status), Reply(admission));
    assert signals == [JoinFailed];
    assert !r.me.connected;
  }
}
