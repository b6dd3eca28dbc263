/** The roster replica of simulator.js: the `group` object and `me`, and the code that
    reads and writes them — the encoder `status`, the merge `handleResponse`, the
    `/group/add_member` rule, the heartbeat probes and their outcomes, the decisions of
    the join handshake `connect`, and the standalone start. Each asynchronous callback
    is one method that receives the request's outcome as an argument. */
module Simulator {
  import opened Wire
  import opened Dictionary
  import opened Reconcile

  const StatusPath := "/group/status"
  const HeartbeatPath := "/heartbeat"
  const AddMemberPath := "/group/add_member"
  const StandaloneGroupName := "Network Link Simulator Group"

  /** The `{ip, port}` pairs of a member list, one per element, in order. */
  function Endpoints(ms: seq<Member>): (eps: seq<Endpoint>)
    ensures |eps| == |ms|
    ensures forall i :: 0 <= i < |ms| ==> eps[i] == EndpointOf(ms[i])
  {
    if ms == [] then [] else Endpoints(ms[..|ms| - 1]) + [EndpointOf(ms[|ms| - 1])]
  }

  /** A heartbeat goes to a member with a non-empty ip that is not our own. */
  predicate Probed(m: Member, selfIp: string) {
    m.ip != "" && m.ip != selfIp
  }

  /** The probes one heartbeat tick issues, in member-list order. */
  function ProbeTargets(ms: seq<Member>, selfIp: string): seq<Endpoint> {
    if ms == [] then []
    else
      var last := ms[|ms| - 1];
      ProbeTargets(ms[..|ms| - 1], selfIp) + if Probed(last, selfIp) then [EndpointOf(last)] else []
  }

  /** A tick probes exactly the members with a non-empty ip other than our own. */
  lemma {:induction false} ProbeTargetsExact(ms: seq<Member>, selfIp: string)
    ensures forall p :: p in ProbeTargets(ms, selfIp) <==>
      exists i :: 0 <= i < |ms| && Probed(ms[i], selfIp) && p == EndpointOf(ms[i])
  {
    if ms != [] {
      var init := ms[..|ms| - 1];
      ProbeTargetsExact(init, selfIp);
      assert forall i :: 0 <= i < |init| ==> init[i] == ms[i];
    }
  }

  /** The list with each element for `ip` replaced by `v`: the effect on `group.members`
      of writing to an object the list shares with the dictionary. */
  function ReplaceIp(ms: seq<Member>, ip: string, v: Member): (r: seq<Member>)
    ensures |r| == |ms|
  {
    seq(|ms|, i requires 0 <= i < |ms| => if ms[i].ip == ip then v else ms[i])
  }

  /** Writing to an entry in place shows through `Object.values` at that entry's place. */
  lemma ValuesAfterPut(d: Dict<Member>, k: string, v: Member)
    requires d.Valid() && KeyedByIp(d) && k in d.entries
    ensures d.Put(k, v).Values() == ReplaceIp(d.Values(), k, v)
  {
    var a, b := d.Put(k, v).Values(), ReplaceIp(d.Values(), k, v);
    assert |a| == |b|;
    forall i | 0 <= i < |a| ensures a[i] == b[i] {
      assert d.Values()[i].ip == d.keys[i];
    }
  }

  /** A stored record is listed in the `{ip, port}` pairs of the rebuilt list. */
  lemma PutListed(d: Dict<Member>, m: Member)
    requires d.Valid()
    ensures EndpointOf(m) in Endpoints(d.Put(m.ip, m).Values())
  {
    var d' := d.Put(m.ip, m);
    assert m.ip in d'.keys;
    var k :| 0 <= k < |d'.keys| && d'.keys[k] == m.ip;
    assert Endpoints(d'.Values())[k] == EndpointOf(m);
  }

  /** The roster after a `/group/status` reply: merged if it has `group_definition`. */
  function AfterStatusReply(d: Dict<Member>, env: Envelope): (r: Dict<Member>)
    requires d.Valid()
    ensures r.Valid()
    ensures KeyedByIp(d) ==> KeyedByIp(r)
  {
    if env.groupDefinition.Some? then Merged(d, env) else d
  }

  /** The reply carries a `status` record for our own ip. */
  predicate OverwritesSelf(env: Envelope, selfIp: string) {
    env.status.Some? && env.status.value.ip == selfIp
  }

  /** A decoded admission request that the rule acts on: a body, with a non-empty `GroupMember.ip`. */
  predicate Admits(data: Option<AddMemberBody>) {
    data.Some? && data.value.groupMember.ip != ""
  }

  /** The member loop of `handleResponse`: each `{ip, port}` whose ip is not yet a key
      becomes a bare entry; keys already present are skipped. */
  method InsertBareLoop(d0: Dict<Member>, eps: seq<Endpoint>) returns (d: Dict<Member>)
    requires d0.Valid()
    ensures d == InsertBare(d0, eps)
  {
    d := d0;
    var i := 0;
    while i < |eps|
      invariant 0 <= i <= |eps|
      invariant d.Valid()
      invariant d == InsertBare(d0, eps[..i])
    {
      var m := eps[i];
      assert eps[..i + 1][..i] == eps[..i];
      if m.ip !in d.entries {
        d := d.Put(m.ip, Bare(m));
      }
      i := i + 1;
    }
    assert eps[..i] == eps;
  }

  /** The dictionary part of `handleResponse`: the member loop, then the `status` step. */
  method MergeMembers(d0: Dict<Member>, env: Envelope) returns (d: Dict<Member>)
    requires d0.Valid() && Definition(env).Some?
    ensures d == Merged(d0, env)
  {
    d := InsertBareLoop(d0, Definition(env).value.members);
    if env.status.Some? {
      var s := env.status.value;
      d := d.Put(s.ip, s);
    }
  }

  /** A merge leaves the entry `me` in place unless the responder's `status` record is
      stored over it. */
  lemma MergeKeepsSelf(me: Member, d: Dict<Member>, env: Envelope, shared: bool)
    requires d.Valid() && Definition(env).Some?
    requires shared ==> me.ip in d.entries && d.entries[me.ip] == me
    ensures shared && !OverwritesSelf(env, me.ip) ==>
      me.ip in Merged(d, env).entries && Merged(d, env).entries[me.ip] == me
  {
    InsertBareKeepsKnown(d, Definition(env).value.members);
  }

  /** The tie between `group.members_by_ip`, `group.members` and `me`: the list names the
      dictionary's keys in order and holds the dictionary's own entries, except that the
      element for `me.ip` may be stale, because the admission step replaces that entry
      without rebuilding the list. `shared` says the dictionary's entry for `me.ip` is the
      object `me`, `listed` that the list's element for it is. */
  ghost predicate Coherent(me: Member, d: Dict<Member>, ms: seq<Member>, shared: bool, listed: bool) {
    && d.Valid() && KeyedByIp(d)
    && |ms| == |d.keys|
    && (forall i :: 0 <= i < |ms| ==> ms[i].ip == d.keys[i])
    && (forall i :: 0 <= i < |ms| && ms[i].ip != me.ip ==> ms[i] == d.entries[ms[i].ip])
    && (shared ==> me.ip in d.entries && d.entries[me.ip] == me)
    && (listed ==> shared)
    && (listed ==> forall i :: 0 <= i < |ms| && ms[i].ip == me.ip ==> ms[i] == me)
  }

  /** `group.members = Object.values(group.members_by_ip)` restores the tie. */
  lemma RebuildCoherent(me: Member, d: Dict<Member>, shared: bool)
    requires d.Valid() && KeyedByIp(d)
    requires shared ==> me.ip in d.entries && d.entries[me.ip] == me
    ensures Coherent(me, d, d.Values(), shared, shared)
  {
  }

  /** Storing a record under its own ip and rebuilding the list keeps the tie; `me`
      stays shared unless the record is stored over it. */
  lemma StoreCoherent(me: Member, d: Dict<Member>, ms: seq<Member>, shared: bool, listed: bool, m: Member)
    requires Coherent(me, d, ms, shared, listed)
    ensures Coherent(me, d.Put(m.ip, m), d.Put(m.ip, m).Values(), shared && m.ip != me.ip, shared && m.ip != me.ip)
  {
    RebuildCoherent(me, d.Put(m.ip, m), shared && m.ip != me.ip);
  }

  /** Writing in place to the shared entry of another member keeps the tie. */
  lemma WriteOtherCoherent(me: Member, d: Dict<Member>, ms: seq<Member>, shared: bool, listed: bool,
                           ip: string, v: Member)
    requires Coherent(me, d, ms, shared, listed)
    requires ip in d.entries && ip != me.ip && v.ip == ip
    ensures Coherent(me, d.Put(ip, v), ReplaceIp(ms, ip, v), shared, listed)
  {
    var d', ms' := d.Put(ip, v), ReplaceIp(ms, ip, v);
    forall i | 0 <= i < |ms'| && ms'[i].ip != me.ip ensures ms'[i] == d'.entries[ms'[i].ip] {
      assert ms[i].ip == d.keys[i];
    }
  }

  /** Storing `me` under its ip without rebuilding the list keeps the tie. */
  lemma WriteSelfCoherent(me: Member, d: Dict<Member>, ms: seq<Member>, shared: bool, listed: bool)
    requires Coherent(me, d, ms, shared, listed)
    requires me.ip in d.entries
    ensures Coherent(me, d.Put(me.ip, me), ms, true, listed)
  {
  }

  /** `me.connected = true` shows through the places that hold `me`, keeping the tie. */
  lemma MarkJoinedCoherent(me: Member, d: Dict<Member>, ms: seq<Member>, shared: bool, listed: bool)
    requires Coherent(me, d, ms, shared, listed)
    ensures var me' := me.(connected := true);
      Coherent(me', if shared then d.Put(me.ip, me') else d,
               if listed then ReplaceIp(ms, me.ip, me') else ms, shared, listed)
  {
  }

  /** `group` and `me`. `membersByIp` is `group.members_by_ip`, `members` is `group.members`.
      The source stores the object `me` itself in the roster; `selfShared` records that
      `members_by_ip[me.ip]` is that object and `selfListed` that the list's element for
      `me.ip` is, so that a later `me.connected = true` shows through them. */
  class Roster {
    var me: Member
    var secret: string
    var name: string
    var timestamp: Option<Timestamp>
    var membersByIp: Dict<Member>
    var members: seq<Member>
    var selfShared: bool
    var selfListed: bool

    ghost predicate Valid()
      reads this
    {
      Coherent(me, membersByIp, members, selfShared, selfListed)
    }

    /** `group.members` is exactly `Object.values(group.members_by_ip)`. */
    ghost predicate Synced()
      reads this
      requires Valid()
    {
      members == membersByIp.Values()
    }

    /** `ip in group.members_by_ip` */
    predicate Knows(ip: string)
      reads this
    {
      ip in membersByIp.entries
    }

    constructor (self: Member)
      ensures Valid() && Synced()
      ensures me == self && secret == "" && name == "" && timestamp == None
      ensures membersByIp == Empty() && members == []
      ensures !selfShared && !selfListed
    {
      me := self;
      secret, name := "", "";
      timestamp := None;
      membersByIp := Empty();
      members := [];
      selfShared, selfListed := false, false;
    }

    /** `me.connected = true`, as the join callback and the standalone start do; it shows
        through every place that holds the object `me`. */
    method MarkJoined()
      requires Valid()
      modifies this
      ensures Valid()
      ensures me == old(me).(connected := true)
      ensures membersByIp == if old(selfShared) then old(membersByIp).Put(me.ip, me) else old(membersByIp)
      ensures members == if old(selfListed) then ReplaceIp(old(members), me.ip, me) else old(members)
      ensures membersByIp.keys == old(membersByIp.keys)
      ensures membersByIp.entries.Keys == old(membersByIp.entries.Keys)
      ensures unchanged(this`secret, this`name, this`timestamp, this`selfShared, this`selfListed)
    {
      MarkJoinedCoherent(me, membersByIp, members, selfShared, selfListed);
      var me' := me.(connected := true);
      var d := if selfShared then membersByIp.Put(me.ip, me') else membersByIp;
      var ms := if selfListed then ReplaceIp(members, me.ip, me') else members;
      me, membersByIp, members := me', d, ms;
    }

    /** Standalone start: name the group, seed the roster with `me`, stamp it, and mark
        `me` connected. */
    method StartStandalone(now: Timestamp)
      requires Valid() && membersByIp == Empty()
      modifies this
      ensures Valid() && Synced()
      ensures unchanged(this`secret)
      ensures name == StandaloneGroupName && timestamp == Some(now)
      ensures me == old(me).(connected := true)
      ensures membersByIp.keys == [me.ip] && membersByIp.entries == map[me.ip := me] && members == [me]
      ensures Knows(me.ip) && membersByIp.entries[me.ip].connected
      ensures selfShared && selfListed
    {
      // `me` is stored in both places and then marked connected; the aliasing makes the
      // mark show through both, so both receive the marked value.
      var me' := me.(connected := true);
      var d := membersByIp.Put(me.ip, me');
      RebuildCoherent(me', d, true);
      assert d.Values() == [me'] == members + [me'];
      me, name, membersByIp, members := me', StandaloneGroupName, d, members + [me'];
      selfShared, selfListed, timestamp := true, true, Some(now);
    }

    /** `status(asHeartbeatResponse)`: the roster as a `group_definition` envelope with one
        `{ip, port}` per list element, in list order; `status` is `me` on heartbeat replies. */
    function Status(asHeartbeatResponse: bool, now: Timestamp): (e: Envelope)
      reads this
      ensures e.groupDefinition.Some? && e.groupDefinitionPascal.None?
      ensures Definition(e) == e.groupDefinition
      ensures e.groupDefinition.value.secret == secret && e.groupDefinition.value.name == name
      ensures e.groupDefinition.value.timestamp == Some(if timestamp.Some? then timestamp.value else now)
      ensures |e.groupDefinition.value.members| == |members|
      ensures forall i :: 0 <= i < |members| ==> e.groupDefinition.value.members[i] == EndpointOf(members[i])
      ensures e.memberName == me.name
      ensures e.status.Some? <==> asHeartbeatResponse
      ensures asHeartbeatResponse ==> e.status.value == me
    {
      var stamp := if timestamp.Some? then timestamp.value else now;
      Envelope(
        Some(GroupDefinition(Some(stamp), secret, name, Endpoints(members))),
        None,
        me.name,
        if asHeartbeatResponse then Some(me) else None)
    }

    /** `handleResponse`: adopt the peer's secret and name, insert bare entries for unknown
        ips, let the responder's `status` overwrite its own entry, rebuild the list. */
    method HandleResponse(env: Envelope)
      requires Valid() && Definition(env).Some?
      modifies this
      ensures Valid() && Synced()
      ensures secret == Definition(env).value.secret && name == Definition(env).value.name
      ensures membersByIp == Merged(old(membersByIp), env)
      ensures unchanged(this`me, this`timestamp)
      ensures selfShared == (old(selfShared) && !OverwritesSelf(env, me.ip))
      ensures selfListed == selfShared
    {
      var def := Definition(env).value;
      var d := MergeMembers(membersByIp, env);
      var shared := selfShared && !OverwritesSelf(env, me.ip);
      MergeKeepsSelf(me, membersByIp, env, selfShared);
      var ms := d.Values();
      RebuildCoherent(me, d, shared);
      secret, name, membersByIp, members, selfShared, selfListed :=
        def.secret, def.name, d, ms, shared, shared;
    }

    /** The `/group/add_member` rule: a decoded body whose `GroupMember.ip` is non-empty
        stores that record under its ip and is answered with the updated roster under the
        key `GroupDefinition`; otherwise nothing changes and the reply is empty. */
    method AddMember(data: Option<AddMemberBody>, now: Timestamp) returns (reply: Option<Envelope>)
      requires Valid()
      modifies this
      ensures Valid()
      ensures !Admits(data) ==> reply == None && unchanged(this)
      ensures Admits(data) ==>
        var m := data.value.groupMember;
        && membersByIp == old(membersByIp).Put(m.ip, m)
        && membersByIp.entries[m.ip] == m
        && Synced()
        && reply == Some(Envelope(None, Status(false, now).groupDefinition, None, None))
        && EndpointOf(m) in reply.value.groupDefinitionPascal.value.members
        && unchanged(this`me, this`secret, this`name, this`timestamp)
        && selfShared == (old(selfShared) && m.ip != me.ip) && selfListed == selfShared
    {
      reply := None;
      if data.Some? {
        var m := data.value.groupMember;
        if m.ip != "" {
          ghost var d0 := membersByIp;
          Store(m);
          reply := Some(Envelope(None, Status(false, now).groupDefinition, None, None));
          PutListed(d0, m);
        }
      }
    }

    /** The two stores of an admission: the record goes under its ip and the list is
        rebuilt from the dictionary. */
    method Store(m: Member)
      requires Valid()
      modifies this`membersByIp, this`members, this`selfShared, this`selfListed
      ensures Valid() && Synced()
      ensures membersByIp == old(membersByIp).Put(m.ip, m)
      ensures unchanged(this`me, this`secret, this`name, this`timestamp)
      ensures selfShared == (old(selfShared) && m.ip != me.ip) && selfListed == selfShared
    {
      var d := membersByIp.Put(m.ip, m);
      var shared := selfShared && m.ip != me.ip;
      var ms := d.Values();
      StoreCoherent(me, membersByIp, members, selfShared, selfListed, m);
      membersByIp, members, selfShared, selfListed := d, ms, shared, shared;
    }

    /** `handleRequest`, past body decoding and URL parsing: dispatch on the path. Every
        reply is sent with status 200; `None` is the empty body. */
    method HandleRequest(path: string, data: Option<AddMemberBody>, now: Timestamp)
      returns (reply: Option<Envelope>)
      requires Valid()
      modifies this
      ensures Valid()
      ensures path == StatusPath ==> reply == Some(Status(false, now)) && unchanged(this)
      ensures path == HeartbeatPath ==> reply == Some(Status(true, now)) && unchanged(this)
      ensures path == AddMemberPath && !Admits(data) ==> reply == None && unchanged(this)
      ensures path == AddMemberPath && Admits(data) ==>
        var m := data.value.groupMember;
        && membersByIp == old(membersByIp).Put(m.ip, m)
        && membersByIp.entries[m.ip] == m
        && Synced()
        && reply == Some(Envelope(None, Status(false, now).groupDefinition, None, None))
        && EndpointOf(m) in reply.value.groupDefinitionPascal.value.members
        && unchanged(this`me, this`secret, this`name, this`timestamp)
        && selfShared == (old(selfShared) && m.ip != me.ip) && selfListed == selfShared
      ensures path != StatusPath && path != HeartbeatPath && path != AddMemberPath ==>
        reply == None && unchanged(this)
    {
      if path == StatusPath {
        reply := Some(Status(false, now));
      } else if path == HeartbeatPath {
        reply := Some(Status(true, now));
      } else if path == AddMemberPath {
        reply := AddMember(data, now);
      } else {
        reply := None;
      }
    }

    /** One heartbeat tick: the probes it sends, skipping ip-less members and ourselves. */
    method Heartbeat() returns (probes: seq<Endpoint>)
      ensures probes == ProbeTargets(members, me.ip)
      ensures forall p :: p in probes <==>
        exists i :: 0 <= i < |members| && Probed(members[i], me.ip) && p == EndpointOf(members[i])
    {
      probes := [];
      for i := 0 to |members|
        invariant probes == ProbeTargets(members[..i], me.ip)
      {
        var m := members[i];
        assert members[..i + 1] == members[..i] + [m];
        if Probed(m, me.ip) {
          probes := probes + [EndpointOf(m)];
        }
      }
      assert members[..|members|] == members;
      ProbeTargetsExact(members, me.ip);
    }

    /** The callbacks of the heartbeat probe sent to `ip`: a reply is merged and then the
        probed member is marked connected; a refused connection marks only that member
        disconnected; any other error changes nothing. */
    method OnHeartbeatOutcome(ip: string, outcome: Outcome)
      requires Valid()
      requires ip != "" && ip != me.ip && Knows(ip)
      requires outcome.Reply? ==> Definition(outcome.envelope).Some?
      modifies this
      ensures Valid()
      ensures unchanged(this`me, this`timestamp)
      ensures outcome.Reply? ==>
        var env := outcome.envelope;
        && secret == Definition(env).value.secret && name == Definition(env).value.name
        && membersByIp == SetConnected(Merged(old(membersByIp), env), ip, true)
        && membersByIp.entries[ip].connected
        && Synced()
        && selfShared == (old(selfShared) && !OverwritesSelf(env, me.ip)) && selfListed == selfShared
      ensures outcome.ConnRefused? ==>
        && membersByIp == SetConnected(old(membersByIp), ip, false)
        && !membersByIp.entries[ip].connected
        && (forall k :: k in old(membersByIp.entries) && k != ip ==>
              membersByIp.entries[k] == old(membersByIp.entries[k]))
        && members == ReplaceIp(old(members), ip, membersByIp.entries[ip])
        && unchanged(this`secret, this`name, this`selfShared, this`selfListed)
      ensures outcome.OtherError? ==> unchanged(this)
    {
      match outcome
      case Reply(env) =>
        HandleResponse(env);
        SetMemberConnected(ip, true);
      case ConnRefused =>
        SetMemberConnected(ip, false);
      case OtherError =>
    }

    /** `group.members_by_ip[ip].connected = c` on another member's entry: the object is
        shared with the list, so the list's element for `ip` changes with it. */
    method SetMemberConnected(ip: string, c: bool)
      requires Valid() && ip != me.ip && Knows(ip)
      modifies this
      ensures Valid()
      ensures membersByIp == SetConnected(old(membersByIp), ip, c)
      ensures members == ReplaceIp(old(members), ip, membersByIp.entries[ip])
      ensures old(Synced()) ==> Synced()
      ensures unchanged(this`me, this`secret, this`name, this`timestamp, this`selfShared, this`selfListed)
    {
      var updated := membersByIp.entries[ip].(connected := c);
      var d, ms := membersByIp.Put(ip, updated), ReplaceIp(members, ip, updated);
      WriteOtherCoherent(me, membersByIp, members, selfShared, selfListed, ip, updated);
      ValuesAfterPut(membersByIp, ip, updated);
      membersByIp, members := d, ms;
    }

    /** Step 1 of `connect`, the `/group/status` callback. A reply is merged if it has
        `group_definition`; success is signalled if `me.ip` is then known, and the
        admission request is sent in every case. A transport error signals failure. */
    method OnStatusOutcome(outcome: Outcome) returns (signal: Signal, request: Option<AddMemberBody>)
      requires Valid()
      modifies this
      ensures Valid()
      ensures unchanged(this`me, this`timestamp)
      ensures !outcome.Reply? ==> signal == JoinFailed && request == None && unchanged(this)
      ensures outcome.Reply? ==>
        var env := outcome.envelope;
        && membersByIp == AfterStatusReply(old(membersByIp), env)
        && (signal == Joined <==> Knows(me.ip))
        && (signal == Joined || signal == Silent)
        && request == Some(AddMemberBody(Bare(Endpoint(me.ip, me.port))))
        && (env.groupDefinition.Some? ==>
              secret == Definition(env).value.secret && name == Definition(env).value.name && Synced()
              && selfShared == (old(selfShared) && !OverwritesSelf(env, me.ip)) && selfListed == selfShared)
        && (env.groupDefinition.None? ==> unchanged(this))
    {
      match outcome
      case Reply(env) =>
        if env.groupDefinition.Some? {
          HandleResponse(env);
        }
        signal := if me.ip in membersByIp.entries then Joined else Silent;
        request := Some(AddMemberBody(Bare(Endpoint(me.ip, me.port))));
      case ConnRefused =>
        signal, request := JoinFailed, None;
      case OtherError =>
        signal, request := JoinFailed, None;
    }

    /** Step 3 of `connect`, the `/group/add_member` callback: merge the reply; if `me.ip`
        is then known, its entry becomes `me` (the list is not rebuilt) and success is
        signalled, otherwise failure. The request has no error callback, so a transport
        error signals nothing. */
    method OnAdmissionOutcome(outcome: Outcome) returns (signal: Signal)
      requires Valid()
      requires outcome.Reply? ==> Definition(outcome.envelope).Some?
      modifies this
      ensures Valid()
      ensures unchanged(this`me, this`timestamp)
      ensures !outcome.Reply? ==> signal == Silent && unchanged(this)
      ensures outcome.Reply? ==>
        var env := outcome.envelope;
        var merged := Merged(old(membersByIp), env);
        && secret == Definition(env).value.secret && name == Definition(env).value.name
        && (signal == Joined <==> me.ip in merged.entries)
        && (signal == Joined || signal == JoinFailed)
        && (old(Knows(me.ip)) ==> signal == Joined)
        && membersByIp == (if signal == Joined then merged.Put(me.ip, me) else merged)
        && (signal == Joined ==> membersByIp.entries[me.ip] == me && selfShared)
        && members == merged.Values()
        && selfListed == (old(selfShared) && !OverwritesSelf(env, me.ip))
        && selfShared == (signal == Joined || selfListed)
    {
      match outcome
      case Reply(env) =>
        HandleResponse(env);
        if me.ip in membersByIp.entries {
          WriteSelfCoherent(me, membersByIp, members, selfShared, selfListed);
          var d := membersByIp.Put(me.ip, me);
          assert Coherent(me, d, members, true, selfListed);
          membersByIp, selfShared := d, true;
          signal := Joined;
        } else {
          signal := JoinFailed;
        }
      case ConnRefused =>
        signal := Silent;
      case OtherError =>
        signal := Silent;
    }

    /** The admission reply as the join at startup sees it: the step-3 callback of
        `connect`, with the success callback marking `me` connected. `signals` lists the
        callbacks invoked. */
    method Admit(outcome: Outcome) returns (signals: seq<Signal>)
      requires Valid()
      requires outcome.Reply? ==> Definition(outcome.envelope).Some?
      modifies this
      ensures Valid()
      ensures me == old(me).(connected := old(me.connected) || Joined in signals)
      ensures unchanged(this`timestamp)
      ensures !outcome.Reply? ==> signals == [] && unchanged(this)
      ensures outcome.Reply? ==>
        signals == if me.ip in Merged(old(membersByIp), outcome.envelope).entries then [Joined] else [JoinFailed]
      ensures outcome.Reply? && old(Knows(me.ip)) ==> signals == [Joined]
      ensures Joined in signals ==> Knows(me.ip) && membersByIp.entries[me.ip] == me
      ensures outcome.Reply? ==>
        var env := outcome.envelope;
        var merged := Merged(old(membersByIp), env);
        var listed := old(selfShared) && !OverwritesSelf(env, me.ip);
        && secret == Definition(env).value.secret && name == Definition(env).value.name
        && membersByIp == (if signals == [Joined] then merged.Put(me.ip, me) else merged)
        && members == (if signals == [Joined] && listed then ReplaceIp(merged.Values(), me.ip, me)
                       else merged.Values())
        && selfListed == listed && selfShared == (signals == [Joined] || listed)
    {
      signals := [];
      var signal := OnAdmissionOutcome(outcome);
      if signal != Silent {
        signals := [signal];
      }
      if signal == Joined {
        ghost var merged := Merged(old(membersByIp), outcome.envelope);
        ghost var me0 := me;
        assert membersByIp == merged.Put(me.ip, me0);
        MarkJoined();
        merged.PutPut(me.ip, me0, me);
      }
    }

    /** The status reply as the join at startup sees it: the step-1 callback of
        `connect`, with the success callback marking `me` connected. `signals` lists the
        callbacks invoked; `request` is the admission request step 1 sends. */
    method Probe(outcome: Outcome) returns (signals: seq<Signal>, request: Option<AddMemberBody>)
      requires Valid()
      modifies this
      ensures Valid()
      ensures me == old(me).(connected := old(me.connected) || Joined in signals)
      ensures unchanged(this`timestamp)
      ensures Joined in signals ==> Knows(me.ip)
      ensures !outcome.Reply? ==> signals == [JoinFailed] && request == None && unchanged(this)
      ensures outcome.Reply? ==>
        var env := outcome.envelope;
        var after := AfterStatusReply(old(membersByIp), env);
        var merging := env.groupDefinition.Some?;
        var listed := if merging then old(selfShared) && !OverwritesSelf(env, me.ip) else old(selfListed);
        var shared := if merging then listed else old(selfShared);
        var ms := if merging then after.Values() else old(members);
        && request.Some?
        && signals == (if me.ip in after.entries then [Joined] else [])
        && (merging ==> secret == Definition(env).value.secret && name == Definition(env).value.name)
        && (!merging ==> unchanged(this`secret, this`name))
        && membersByIp == (if signals == [Joined] && shared then after.Put(me.ip, me) else after)
        && members == (if signals == [Joined] && listed then ReplaceIp(ms, me.ip, me) else ms)
        && selfShared == shared && selfListed == listed
    {
      var first;
      first, request := OnStatusOutcome(outcome);
      if first == Joined {
        signals := [Joined];
        MarkJoined();
      } else if first == JoinFailed {
        signals := [JoinFailed];
      } else {
        signals := [];
      }
    }

    /** The admission step of a join, stated against `after`, the roster right after the
        status reply: the status step stored at most `me` under its own ip, so the
        admission reply decides as if merged into `after`. */
    method AdmitAfterStatus(outcome: Outcome, ghost after: Dict<Member>) returns (signals: seq<Signal>)
      requires Valid() && after.Valid() && KeyedByIp(after)
      requires outcome.Reply? ==> Definition(outcome.envelope).Some?
      requires membersByIp == after || (selfShared && me.ip in after.entries && membersByIp == after.Put(me.ip, me))
      modifies this
      ensures Valid()
      ensures me == old(me).(connected := old(me.connected) || Joined in signals)
      ensures unchanged(this`timestamp)
      ensures Joined in signals ==> Knows(me.ip)
      ensures !outcome.Reply? ==> signals == [] && unchanged(this)
      ensures outcome.Reply? ==>
        var env := outcome.envelope;
        var final := Merged(after, env);
        && signals == (if me.ip in final.entries then [Joined] else [JoinFailed])
        && (me.ip in after.entries ==> signals == [Joined])
        && secret == Definition(env).value.secret && name == Definition(env).value.name
        && AgreeExcept(membersByIp, final, me.ip)
        && (me.ip in final.entries ==> membersByIp.entries[me.ip] == me)
        && selfShared == (me.ip in final.entries)
        && selfListed == (old(selfShared) && !OverwritesSelf(env, me.ip))
        && members == (if selfListed then ReplaceIp(final.Values(), me.ip, me) else final.Values())
    {
      ghost var d1, me0 := membersByIp, me;
      signals := Admit(outcome);
      if outcome.Reply? {
        JoinRoster(after, d1, membersByIp, outcome.envelope, me.ip, me0, me);
        JoinList(after, d1, outcome.envelope, me.ip, me0, me);
      }
    }

    /** The join at startup: `connect` against the bootstrap peer, with the success
        callback marking `me` connected. `signals` lists the callbacks invoked, in order;
        a failure signal makes the process exit. */
    method Join(statusOutcome: Outcome, admissionOutcome: Outcome) returns (signals: seq<Signal>)
      requires Valid()
      requires admissionOutcome.Reply? ==> Definition(admissionOutcome.envelope).Some?
      modifies this
      ensures Valid()
      ensures Silent !in signals
      ensures me == old(me).(connected := old(me.connected) || Joined in signals)
      ensures unchanged(this`timestamp)
      ensures Joined in signals ==> Knows(me.ip)
      ensures !statusOutcome.Reply? ==> signals == [JoinFailed] && unchanged(this)
      ensures statusOutcome.Reply? && admissionOutcome.Reply? && Joined in signals ==>
        membersByIp.entries[me.ip] == me
      ensures statusOutcome.Reply? && me.ip in AfterStatusReply(old(membersByIp), statusOutcome.envelope).entries ==>
        signals == if admissionOutcome.Reply? then [Joined, Joined] else [Joined]
      ensures statusOutcome.Reply? && me.ip !in AfterStatusReply(old(membersByIp), statusOutcome.envelope).entries ==>
        && (!admissionOutcome.Reply? ==> signals == [])
        && (admissionOutcome.Reply? ==>
              signals == if me.ip in Merged(AfterStatusReply(old(membersByIp), statusOutcome.envelope),
                                            admissionOutcome.envelope).entries
                         then [Joined] else [JoinFailed])
      ensures statusOutcome.Reply? && !admissionOutcome.Reply? ==>
        var env := statusOutcome.envelope;
        var after := AfterStatusReply(old(membersByIp), env);
        var merging := env.groupDefinition.Some?;
        var listed := if merging then old(selfShared) && !OverwritesSelf(env, me.ip) else old(selfListed);
        var shared := if merging then listed else old(selfShared);
        var ms := if merging then after.Values() else old(members);
        && (merging ==> secret == Definition(env).value.secret && name == Definition(env).value.name)
        && (!merging ==> unchanged(this`secret, this`name))
        && membersByIp == (if signals == [Joined] && shared then after.Put(me.ip, me) else after)
        && members == (if signals == [Joined] && listed then ReplaceIp(ms, me.ip, me) else ms)
        && selfShared == shared && selfListed == listed
      ensures statusOutcome.Reply? && admissionOutcome.Reply? ==>
        var env := admissionOutcome.envelope;
        var final := Merged(AfterStatusReply(old(membersByIp), statusOutcome.envelope), env);
        && secret == Definition(env).value.secret && name == Definition(env).value.name
        && AgreeExcept(membersByIp, final, me.ip)
        && (me.ip in final.entries ==> membersByIp.entries[me.ip] == me)
        && selfShared == (me.ip in final.entries)
        && var status := statusOutcome.envelope;
           var sharedAfterStatus := old(selfShared) && (status.groupDefinition.Some? ==> !OverwritesSelf(status, me.ip));
           && selfListed == (sharedAfterStatus && !OverwritesSelf(env, me.ip))
           && members == (if selfListed then ReplaceIp(final.Values(), me.ip, me) else final.Values())
    {
      var request;
      signals, request := Probe(statusOutcome);
      if request.Some? {
        ghost var after := AfterStatusReply(old(membersByIp), statusOutcome.envelope);
        ghost var d1 := membersByIp;
        assert d1 == after || (selfShared && me.ip in after.entries && d1 == after.Put(me.ip, me));
        assert signals == [Joined] ==> me.connected && Knows(me.ip);
        var more := AdmitAfterStatus(admissionOutcome, after);
        if admissionOutcome.Reply? && signals == [Joined] {
          assert more == [Joined];
          signals := [Joined, Joined];
        } else if admissionOutcome.Reply? {
          signals := more;
        }
      }
    }
  }

  /** The roster a join leaves: the status step stored at most one value under `ip`, so
      the admission merge and its store under `ip` agree with merging the admission
      reply into the roster right after the status reply everywhere but at `ip`. */
  lemma JoinRoster(after: Dict<Member>, d1: Dict<Member>, d2: Dict<Member>, env: Envelope, ip: string, v: Member, w: Member)
    requires after.Valid() && d1.Valid() && Definition(env).Some?
    requires d1 == after || (ip in after.entries && d1 == after.Put(ip, v))
    requires d2 == if ip in Merged(d1, env).entries then Merged(d1, env).Put(ip, w) else Merged(d1, env)
    ensures AgreeExcept(d2, Merged(after, env), ip)
    ensures ip in Merged(after, env).entries <==> ip in Merged(d1, env).entries
  {
    var m1, m := Merged(d1, env), Merged(after, env);
    if d1 != after {
      PutKnownAgree(after, ip, v);
      assert AgreeExcept(d1, after, ip);
      MergedAgree(d1, after, env, ip);
    } else {
      assert AgreeExcept(m1, m, ip);
    }
    if ip in m1.entries {
      PutKnownAgree(m1, ip, w);
      AgreeTrans(d2, m1, m, ip);
    }
  }

  /** Two dictionaries keyed by ip that agree everywhere but at `x` list the same values
      once the element for `x` is overwritten. */
  lemma AgreeReplace(d: Dict<Member>, d': Dict<Member>, x: string, w: Member)
    requires d.Valid() && d'.Valid() && KeyedByIp(d) && KeyedByIp(d') && AgreeExcept(d, d', x)
    ensures ReplaceIp(d.Values(), x, w) == ReplaceIp(d'.Values(), x, w)
  {
    var a, b := ReplaceIp(d.Values(), x, w), ReplaceIp(d'.Values(), x, w);
    forall i | 0 <= i < |a| ensures a[i] == b[i] {
      assert d.Values()[i].ip == d.keys[i] == d'.Values()[i].ip;
    }
  }

  /** The list a join leaves: the list the admission merge rebuilds from the roster the
      status step left equals the list rebuilt from the roster right after the status
      reply, once the element for `ip` is overwritten; and outright when the status step
      stored nothing or the admission reply's `status` replaces the entry for `ip`. */
  lemma JoinList(after: Dict<Member>, d1: Dict<Member>, env: Envelope, ip: string, v: Member, w: Member)
    requires after.Valid() && KeyedByIp(after) && Definition(env).Some? && v.ip == ip
    requires d1 == after || (ip in after.entries && d1 == after.Put(ip, v))
    ensures ReplaceIp(Merged(d1, env).Values(), ip, w) == ReplaceIp(Merged(after, env).Values(), ip, w)
    ensures d1 == after || OverwritesSelf(env, ip) ==> Merged(d1, env).Values() == Merged(after, env).Values()
  {
    if d1 != after {
      assert KeyedByIp(d1);
      PutKnownAgree(after, ip, v);
      MergedAgree(d1, after, env, ip);
      var m1, m := Merged(d1, env), Merged(after, env);
      assert KeyedByIp(m1) && KeyedByIp(m);
      AgreeReplace(m1, m, ip, w);
    }
  }

  /** Inserting the `{ip, port}` pairs of a list that names a dictionary's keys in order
      into an empty dictionary gives back those keys, in that order, as bare entries. */
  lemma EndpointsRoundTrip(d: Dict<Member>, ms: seq<Member>)
    requires d.Valid()
    requires |ms| == |d.keys| && forall i :: 0 <= i < |ms| ==> ms[i].ip == d.keys[i]
    ensures InsertBare(Empty(), Endpoints(ms)).keys == d.keys
    ensures forall i :: 0 <= i < |ms| ==>
      InsertBare(Empty(), Endpoints(ms)).entries[ms[i].ip] == Bare(EndpointOf(ms[i]))
  {
    var eps := Endpoints(ms);
    InsertBareFresh(Empty(), eps);
    InsertBareFreshEntries(Empty(), eps);
  }

  /** Round trip: merging our own `status()` reply into an empty roster yields the same
      keys in the same order, each as a bare entry made from the list's `{ip, port}`. */
  lemma StatusRoundTrip(r: Roster, now: Timestamp)
    requires r.Valid()
    ensures Merged(Empty(), r.Status(false, now)).keys == r.membersByIp.keys
    ensures forall i :: 0 <= i < |r.members| ==>
      Merged(Empty(), r.Status(false, now)).entries[r.members[i].ip] == Bare(EndpointOf(r.members[i]))
  {
    var env := r.Status(false, now);
    assert env.groupDefinition.value.members == Endpoints(r.members);
    assert Merged(Empty(), env) == InsertBare(Empty(), Endpoints(r.members));
    EndpointsRoundTrip(r.membersByIp, r.members);
  }
}
