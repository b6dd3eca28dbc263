/** The reconciler of simulator.js (`handleResponse`) stated as functions on the
    member dictionary, with the lemmas that give its guarantees: first-seen wins,
    nothing is removed, the responder's own `status` record is authoritative. */
module Reconcile {
  import opened Wire
  import opened Dictionary

  /** Every entry is stored under its own `ip`. */
  ghost predicate KeyedByIp(d: Dict<Member>) {
    forall k :: k in d.entries ==> d.entries[k].ip == k
  }

  function IpSet(eps: seq<Endpoint>): set<string> {
    set e | e in eps :: e.ip
  }

  /** The member loop: each `{ip, port}` whose ip is not yet a key is inserted as a
      bare entry, in list order; a key already present is left alone. */
  function InsertBare(d: Dict<Member>, eps: seq<Endpoint>): (r: Dict<Member>)
    requires d.Valid()
    ensures r.Valid()
    ensures KeyedByIp(d) ==> KeyedByIp(r)
    ensures d.entries.Keys <= r.entries.Keys
    decreases |eps|
  {
    if eps == [] then d
    else
      var r0 := InsertBare(d, eps[..|eps| - 1]);
      var e := eps[|eps| - 1];
      if e.ip in r0.entries then r0 else r0.Put(e.ip, Bare(e))
  }

  /** The `status` step: a copy of the responder's record replaces the entry for its ip. */
  function ApplyStatus(d: Dict<Member>, status: Option<Member>): (r: Dict<Member>)
    requires d.Valid()
    ensures r.Valid()
    ensures KeyedByIp(d) ==> KeyedByIp(r)
    ensures d.entries.Keys <= r.entries.Keys
  {
    match status
    case None => d
    case Some(s) => d.Put(s.ip, s)
  }

  /** The whole member update of a merge. */
  function Merged(d: Dict<Member>, env: Envelope): (r: Dict<Member>)
    requires d.Valid() && Definition(env).Some?
    ensures r.Valid()
    ensures KeyedByIp(d) ==> KeyedByIp(r)
    ensures d.entries.Keys <= r.entries.Keys
  {
    ApplyStatus(InsertBare(d, Definition(env).value.members), env.status)
  }

  /** `members_by_ip[ip].connected = c` */
  function SetConnected(d: Dict<Member>, ip: string, c: bool): (r: Dict<Member>)
    requires d.Valid() && ip in d.entries
    ensures r.Valid() && r.keys == d.keys
    ensures KeyedByIp(d) ==> KeyedByIp(r)
  {
    d.Put(ip, d.entries[ip].(connected := c))
  }

  /** Two dictionaries with the same keys, in the same order, whose entries agree except
      possibly under the key `x`. */
  ghost predicate AgreeExcept(d: Dict<Member>, d': Dict<Member>, x: string) {
    && d.keys == d'.keys && d.entries.Keys == d'.entries.Keys
    && forall k :: k in d.entries && k != x ==> d.entries[k] == d'.entries[k]
  }

  /** The member loop treats two such dictionaries alike: it inserts the same keys and
      the results still agree except under `x`. */
  lemma {:induction false} InsertBareAgree(d: Dict<Member>, d': Dict<Member>, eps: seq<Endpoint>, x: string)
    requires d.Valid() && d'.Valid() && AgreeExcept(d, d', x)
    ensures AgreeExcept(InsertBare(d, eps), InsertBare(d', eps), x)
    decreases |eps|
  {
    if eps != [] {
      var init, e := eps[..|eps| - 1], eps[|eps| - 1];
      InsertBareAgree(d, d', init, x);
      var r0, r0' := InsertBare(d, init), InsertBare(d', init);
      if e.ip in r0.entries {
        assert InsertBare(d, eps) == r0 && InsertBare(d', eps) == r0';
      } else {
        assert InsertBare(d, eps) == r0.Put(e.ip, Bare(e)) && InsertBare(d', eps) == r0'.Put(e.ip, Bare(e));
        PutAgree(r0, r0', e.ip, Bare(e), x);
      }
    }
  }

  /** Storing the same value under the same key on both sides keeps the agreement. */
  lemma PutAgree(d: Dict<Member>, d': Dict<Member>, k: string, v: Member, x: string)
    requires d.Valid() && d'.Valid() && AgreeExcept(d, d', x)
    ensures AgreeExcept(d.Put(k, v), d'.Put(k, v), x)
  {
  }

  /** Assigning to a key that is already present changes nothing else. */
  lemma PutKnownAgree(d: Dict<Member>, k: string, v: Member)
    requires d.Valid() && k in d.entries
    ensures AgreeExcept(d.Put(k, v), d, k)
  {
  }

  lemma AgreeTrans(d: Dict<Member>, d': Dict<Member>, d'': Dict<Member>, x: string)
    requires AgreeExcept(d, d', x) && AgreeExcept(d', d'', x)
    ensures AgreeExcept(d, d'', x)
  {
  }

  /** Storing under the one key where two dictionaries may differ makes them equal. */
  lemma PutOverAgree(d: Dict<Member>, d': Dict<Member>, x: string, v: Member)
    requires d.Valid() && d'.Valid() && AgreeExcept(d, d', x)
    ensures d.Put(x, v) == d'.Put(x, v)
  {
    var e, e' := d.entries[x := v], d'.entries[x := v];
    assert e.Keys == e'.Keys;
    assert forall k :: k in e ==> e[k] == e'[k];
  }

  /** ... and so does a whole merge. */
  lemma MergedAgree(d: Dict<Member>, d': Dict<Member>, env: Envelope, x: string)
    requires d.Valid() && d'.Valid() && AgreeExcept(d, d', x) && Definition(env).Some?
    ensures AgreeExcept(Merged(d, env), Merged(d', env), x)
    ensures env.status.Some? && env.status.value.ip == x ==> Merged(d, env) == Merged(d', env)
  {
    var eps := Definition(env).value.members;
    InsertBareAgree(d, d', eps, x);
    var r0, r0' := InsertBare(d, eps), InsertBare(d', eps);
    if env.status.Some? {
      var st := env.status.value;
      assert Merged(d, env) == r0.Put(st.ip, st) && Merged(d', env) == r0'.Put(st.ip, st);
      PutAgree(r0, r0', st.ip, st, x);
      if st.ip == x {
        PutOverAgree(r0, r0', x, st);
      }
    } else {
      assert Merged(d, env) == r0 && Merged(d', env) == r0';
    }
  }

  /** First-seen wins: an entry whose ip is already a key is never changed, and no key is lost. */
  lemma {:induction false} InsertBareKeepsKnown(d: Dict<Member>, eps: seq<Endpoint>)
    requires d.Valid()
    ensures forall k :: k in d.entries ==>
      k in InsertBare(d, eps).entries && InsertBare(d, eps).entries[k] == d.entries[k]
    decreases |eps|
  {
    if eps != [] {
      InsertBareKeepsKnown(d, eps[..|eps| - 1]);
    }
  }

  /** Afterwards the keys are exactly the old keys and the ips of the incoming list. */
  lemma {:induction false} InsertBareKeys(d: Dict<Member>, eps: seq<Endpoint>)
    requires d.Valid()
    ensures InsertBare(d, eps).entries.Keys == d.entries.Keys + IpSet(eps)
    decreases |eps|
  {
    if eps != [] {
      InsertBareKeys(d, eps[..|eps| - 1]);
      IpSetSnoc(eps);
    }
  }

  /** Existing keys keep their places in the key order; new keys come after them. */
  lemma {:induction false} InsertBareKeyOrder(d: Dict<Member>, eps: seq<Endpoint>)
    requires d.Valid()
    ensures |d.keys| <= |InsertBare(d, eps).keys|
    ensures InsertBare(d, eps).keys[..|d.keys|] == d.keys
    decreases |eps|
  {
    if eps != [] {
      InsertBareKeyOrder(d, eps[..|eps| - 1]);
    }
  }

  /** A key the dictionary did not have holds the bare entry of the FIRST pair in the
      list that carries that ip; `j` is that pair's index. */
  lemma {:induction false} InsertBareFirstSeen(d: Dict<Member>, eps: seq<Endpoint>, k: string)
    returns (j: nat)
    requires d.Valid()
    requires k !in d.entries && k in IpSet(eps)
    ensures j < |eps| && eps[j].ip == k
    ensures forall i :: 0 <= i < j ==> eps[i].ip != k
    ensures k in InsertBare(d, eps).entries && InsertBare(d, eps).entries[k] == Bare(eps[j])
    decreases |eps|
  {
    var init := eps[..|eps| - 1];
    var e := eps[|eps| - 1];
    var r0 := InsertBare(d, init);
    InsertBareKeys(d, init);
    IpSetSnoc(eps);
    if k in IpSet(init) {
      j := InsertBareFirstSeen(d, init, k);
      assert InsertBare(d, eps).entries[k] == r0.entries[k];
    } else {
      assert k !in r0.entries;
      assert InsertBare(d, eps) == r0.Put(e.ip, Bare(e));
      NotInIpSet(init, k);
      j := |eps| - 1;
    }
    forall i | 0 <= i < j ensures eps[i].ip != k {
      assert eps[i] == init[i];
    }
  }

  lemma IpSetSnoc(eps: seq<Endpoint>)
    requires eps != []
    ensures IpSet(eps) == IpSet(eps[..|eps| - 1]) + {eps[|eps| - 1].ip}
  {
    assert eps == eps[..|eps| - 1] + [eps[|eps| - 1]];
  }

  lemma NotInIpSet(eps: seq<Endpoint>, k: string)
    requires k !in IpSet(eps)
    ensures forall i :: 0 <= i < |eps| ==> eps[i].ip != k
  {
    forall i | 0 <= i < |eps| ensures eps[i].ip != k {
      assert eps[i] in eps;
    }
  }

  /** A list whose ips are all keys already changes nothing. */
  lemma {:induction false} InsertBareAllKnown(d: Dict<Member>, eps: seq<Endpoint>)
    requires d.Valid()
    requires IpSet(eps) <= d.entries.Keys
    ensures InsertBare(d, eps) == d
    decreases |eps|
  {
    if eps != [] {
      var init := eps[..|eps| - 1];
      assert IpSet(init) <= IpSet(eps) by {
        forall x | x in init ensures x in eps { }
      }
      InsertBareAllKnown(d, init);
      assert eps[|eps| - 1] in eps;
    }
  }

  /** Bare-entry insertion is idempotent: merging the same list twice is merging it once. */
  lemma InsertBareIdempotent(d: Dict<Member>, eps: seq<Endpoint>)
    requires d.Valid()
    ensures InsertBare(InsertBare(d, eps), eps) == InsertBare(d, eps)
  {
    InsertBareKeys(d, eps);
    InsertBareAllKnown(InsertBare(d, eps), eps);
  }

  /** Pairs with distinct ips, none of them a key yet, are appended in list order. */
  lemma {:induction false} InsertBareFresh(d: Dict<Member>, eps: seq<Endpoint>)
    requires d.Valid()
    requires forall i, j :: 0 <= i < j < |eps| ==> eps[i].ip != eps[j].ip
    requires forall i :: 0 <= i < |eps| ==> eps[i].ip !in d.entries
    ensures |InsertBare(d, eps).keys| == |d.keys| + |eps|
    ensures InsertBare(d, eps).keys[..|d.keys|] == d.keys
    ensures forall i :: 0 <= i < |eps| ==> InsertBare(d, eps).keys[|d.keys| + i] == eps[i].ip
    decreases |eps|
  {
    if eps != [] {
      var init := eps[..|eps| - 1];
      var e := eps[|eps| - 1];
      InsertBareFresh(d, init);
      var r0 := InsertBare(d, init);
      FreshNotKey(d, init, r0, e.ip);
      var r := r0.Put(e.ip, Bare(e));
      assert InsertBare(d, eps) == r;
      assert r.keys == r0.keys + [e.ip];
      assert r.keys[..|d.keys|] == r0.keys[..|d.keys|];
      forall i | 0 <= i < |eps| ensures r.keys[|d.keys| + i] == eps[i].ip {
        if i < |init| {
          assert eps[i] == init[i];
        }
      }
    }
  }

  /** ... and each of them holds its bare entry. */
  lemma {:induction false} InsertBareFreshEntries(d: Dict<Member>, eps: seq<Endpoint>)
    requires d.Valid()
    requires forall i, j :: 0 <= i < j < |eps| ==> eps[i].ip != eps[j].ip
    requires forall i :: 0 <= i < |eps| ==> eps[i].ip !in d.entries
    ensures forall i :: 0 <= i < |eps| ==>
      eps[i].ip in InsertBare(d, eps).entries && InsertBare(d, eps).entries[eps[i].ip] == Bare(eps[i])
    decreases |eps|
  {
    if eps != [] {
      var init := eps[..|eps| - 1];
      var e := eps[|eps| - 1];
      InsertBareFresh(d, init);
      InsertBareFreshEntries(d, init);
      var r0 := InsertBare(d, init);
      FreshNotKey(d, init, r0, e.ip);
      var r := r0.Put(e.ip, Bare(e));
      assert InsertBare(d, eps) == r;
      forall i | 0 <= i < |eps| ensures eps[i].ip in r.entries && r.entries[eps[i].ip] == Bare(eps[i]) {
        if i < |init| {
          assert eps[i] == init[i];
        }
      }
    }
  }

  lemma FreshNotKey(d: Dict<Member>, init: seq<Endpoint>, r0: Dict<Member>, ip: string)
    requires d.Valid() && r0.Valid()
    requires |r0.keys| == |d.keys| + |init| && r0.keys[..|d.keys|] == d.keys
    requires forall i :: 0 <= i < |init| ==> r0.keys[|d.keys| + i] == init[i].ip
    requires ip !in d.entries && forall i :: 0 <= i < |init| ==> init[i].ip != ip
    ensures ip !in r0.entries
  {
    forall j | 0 <= j < |r0.keys| ensures r0.keys[j] != ip {
      if j < |d.keys| {
        assert r0.keys[j] == r0.keys[..|d.keys|][j] == d.keys[j];
      } else {
        assert r0.keys[j] == init[j - |d.keys|].ip;
      }
    }
  }

  /** A merge only adds keys: the old keys, the incoming list's ips and the responder's
      ip; old keys keep their places in the key order. */
  lemma MergeKeys(d: Dict<Member>, env: Envelope)
    requires d.Valid() && Definition(env).Some?
    ensures Merged(d, env).entries.Keys == d.entries.Keys + IpSet(Definition(env).value.members)
      + (if env.status.Some? then {env.status.value.ip} else {})
    ensures |d.keys| <= |Merged(d, env).keys|
    ensures Merged(d, env).keys[..|d.keys|] == d.keys
  {
    var eps := Definition(env).value.members;
    var r0 := InsertBare(d, eps);
    InsertBareKeys(d, eps);
    InsertBareKeyOrder(d, eps);
    if env.status.Some? {
      var s := env.status.value;
      assert Merged(d, env) == r0.Put(s.ip, s);
      if s.ip !in r0.entries {
        assert (r0.keys + [s.ip])[..|d.keys|] == r0.keys[..|d.keys|];
      }
    } else {
      assert Merged(d, env) == r0;
    }
  }

  /** What a merge does to entries: the responder's entry is its `status` record; every
      other entry that was known is left as it was. */
  lemma MergeEffect(d: Dict<Member>, env: Envelope)
    requires d.Valid() && Definition(env).Some?
    ensures env.status.Some? ==> Merged(d, env).entries[env.status.value.ip] == env.status.value
    ensures forall k :: (k in d.entries && (env.status.None? || k != env.status.value.ip)
      ==> Merged(d, env).entries[k] == d.entries[k])
  {
    var eps := Definition(env).value.members;
    var r0 := InsertBare(d, eps);
    InsertBareKeepsKnown(d, eps);
    if env.status.Some? {
      var s := env.status.value;
      assert Merged(d, env) == r0.Put(s.ip, s);
    } else {
      assert Merged(d, env) == r0;
    }
  }
}
