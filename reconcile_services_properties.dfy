/**
 * Properties of the headless-service step: which services it queues, which it updates
 * and how, what the create batch does, that events follow creates one for one, and that
 * a second pass right after a successful one writes nothing.
 */
module ReconcileServicesProperties {
  import opened Wrappers
  import opened ReconcileServices

  // ---------------------------------------------------------------- reference definitions

  function KeysOf(ps: seq<Service>): set<Key>
  {
    set i | 0 <= i < |ps| :: ps[i].NsName()
  }

  /** No two services share a (name, namespace). */
  predicate DistinctKeys(ps: seq<Service>)
  {
    forall i, j | 0 <= i < j < |ps| :: ps[i].NsName() != ps[j].NsName()
  }

  /** The services absent from `store`, owner-stamped, in their order in `ps`. */
  function Missing(dc: Datacenter, store: map<Key, Service>, ps: seq<Service>): seq<Service>
  {
    if ps == [] then []
    else
      (if ps[0].NsName() !in store then [SetControllerReference(dc, ps[0])] else [])
      + Missing(dc, store, ps[1..])
  }

  /** The update objects for the services stored with a different hash, in their order in `ps`. */
  function Stale(dc: Datacenter, store: map<Key, Service>, ps: seq<Service>): seq<Service>
  {
    if ps == [] then []
    else
      var key := ps[0].NsName();
      (if key in store && store[key].hash != ps[0].hash
       then [MergeForUpdate(SetControllerReference(dc, ps[0]), store[key])] else [])
      + Stale(dc, store, ps[1..])
  }

  /** Writes each service under its key, in order. */
  function Upsert(store: map<Key, Service>, ms: seq<Service>): map<Key, Service>
    decreases |ms|
  {
    if ms == [] then store else Upsert(store[ms[0].NsName() := ms[0]], ms[1..])
  }

  function UpdateWrites(ms: seq<Service>): seq<Write>
  {
    if ms == [] then [] else [Updated(ms[0])] + UpdateWrites(ms[1..])
  }

  /** The writes of a create batch that succeeds: a progress update, then the create, per service. */
  function CreateWrites(ps: seq<Service>): seq<Write>
  {
    if ps == [] then [] else [ProgressUpdating, Created(ps[0])] + CreateWrites(ps[1..])
  }

  function CreatedEvents(ps: seq<Service>): seq<Event>
  {
    if ps == [] then [] else [CreatedEvent(ps[0])] + CreatedEvents(ps[1..])
  }

  /** The services created by a sequence of writes, in order. */
  function CreatedServices(ws: seq<Write>): seq<Service>
  {
    if ws == [] then []
    else (if ws[0].Created? then [ws[0].service] else []) + CreatedServices(ws[1..])
  }

  /** Whether the check loop gets past every service of `ps`. */
  predicate CheckCanPass(faults: Faults, store: map<Key, Service>, ps: seq<Service>)
  {
    ps == [] ||
    (var key := ps[0].NsName();
     && key !in faults.ownerReference
     && key !in faults.get
     && (key in store && store[key].hash != ps[0].hash ==> key !in faults.update)
     && CheckCanPass(faults, store, ps[1..]))
  }

  /** The failure the check loop meets at service `d`, if any, given the store it reads. */
  function StepFailure(faults: Faults, store: map<Key, Service>, d: Service): Option<Cause>
  {
    var key := d.NsName();
    if key in faults.ownerReference then Some(OwnerReferenceFailed(key))
    else if key in faults.get then Some(GetFailed(key))
    else if key in store && store[key].hash != d.hash && key in faults.update then Some(UpdateFailed(key))
    else None
  }

  /** The position of the first service of `ps` at which a call fails, or `|ps|` when none does. */
  function FailureIndex(faults: Faults, store: map<Key, Service>, ps: seq<Service>): (m: nat)
    ensures m <= |ps|
    ensures m < |ps| ==> StepFailure(faults, store, ps[m]).Some?
    ensures forall i | 0 <= i < m :: StepFailure(faults, store, ps[i]) == None
    decreases |ps|
  {
    if ps == [] then 0
    else if StepFailure(faults, store, ps[0]).Some? then 0
    else
      var m := FailureIndex(faults, store, ps[1..]);
      assert forall i | 0 <= i < m :: ps[1..][i] == ps[i + 1];
      1 + m
  }

  // ---------------------------------------------------------------- the check loop

  /**
   * The check loop never creates: its only store writes are updates of services already
   * stored, the key set of the store is unchanged, keys of other services keep their
   * objects, and every queued service is absent from the store.
   */
  lemma CheckWritesOnlyUpdates(dc: Datacenter, faults: Faults, st: CheckState, ps: seq<Service>)
    ensures var st' := CheckFrom(dc, faults, st, ps).1;
      && st'.store.Keys == st.store.Keys
      && (forall k | k in st.store && k !in KeysOf(ps) :: st'.store[k] == st.store[k])
      && |st.trace| <= |st'.trace| && st'.trace[..|st.trace|] == st.trace
      && (forall j | |st.trace| <= j < |st'.trace| :: st'.trace[j].Updated?)
      && |st.createNeeded| <= |st'.createNeeded| && st'.createNeeded[..|st.createNeeded|] == st.createNeeded
      && (forall j | |st.createNeeded| <= j < |st'.createNeeded| :: st'.createNeeded[j].NsName() !in st.store)
  {
    CheckKeepsKeys(dc, faults, st, ps);
    CheckOnlyAppends(dc, faults, st, ps);
  }

  /** The check loop keeps the key set of the store and the objects of keys it does not visit. */
  lemma {:induction false} CheckKeepsKeys(dc: Datacenter, faults: Faults, st: CheckState, ps: seq<Service>)
    ensures var st' := CheckFrom(dc, faults, st, ps).1;
      && st'.store.Keys == st.store.Keys
      && (forall k | k in st.store && k !in KeysOf(ps) :: st'.store[k] == st.store[k])
    decreases |ps|
  {
    if ps != [] {
      var key := ps[0].NsName();
      assert KeysOf(ps) == {key} + KeysOf(ps[1..]);
      if key !in faults.ownerReference {
        var desired := SetControllerReference(dc, ps[0]);
        match Get(st.store, faults, key)
        case NotFound =>
          CheckKeepsKeys(dc, faults, st.(createNeeded := st.createNeeded + [desired]), ps[1..]);
        case LookupError =>
        case Found(current) =>
          if current.hash == desired.hash {
            CheckKeepsKeys(dc, faults, st, ps[1..]);
          } else if key !in faults.update {
            var updated := MergeForUpdate(desired, current);
            CheckKeepsKeys(dc, faults, st.(store := st.store[key := updated], trace := st.trace + [Updated(updated)]), ps[1..]);
          }
      }
    }
  }

  /** The check loop only appends: updates to the trace, and services absent from the store to the queue. */
  lemma {:induction false} CheckOnlyAppends(dc: Datacenter, faults: Faults, st: CheckState, ps: seq<Service>)
    ensures var st' := CheckFrom(dc, faults, st, ps).1;
      && |st.trace| <= |st'.trace| && st'.trace[..|st.trace|] == st.trace
      && (forall j | |st.trace| <= j < |st'.trace| :: st'.trace[j].Updated?)
      && |st.createNeeded| <= |st'.createNeeded| && st'.createNeeded[..|st.createNeeded|] == st.createNeeded
      && (forall j | |st.createNeeded| <= j < |st'.createNeeded| :: st'.createNeeded[j].NsName() !in st.store)
    decreases |ps|
  {
    if ps != [] {
      var key := ps[0].NsName();
      if key !in faults.ownerReference {
        var desired := SetControllerReference(dc, ps[0]);
        match Get(st.store, faults, key)
        case NotFound =>
          var st1 := st.(createNeeded := st.createNeeded + [desired]);
          CheckOnlyAppends(dc, faults, st1, ps[1..]);
          var st' := CheckFrom(dc, faults, st1, ps[1..]).1;
          assert st'.createNeeded[..|st1.createNeeded|][..|st.createNeeded|] == st'.createNeeded[..|st.createNeeded|];
        case LookupError =>
        case Found(current) =>
          if current.hash == desired.hash {
            CheckOnlyAppends(dc, faults, st, ps[1..]);
          } else if key !in faults.update {
            var updated := MergeForUpdate(desired, current);
            var st1 := st.(store := st.store[key := updated], trace := st.trace + [Updated(updated)]);
            CheckOnlyAppends(dc, faults, st1, ps[1..]);
            var st' := CheckFrom(dc, faults, st1, ps[1..]).1;
            assert st'.trace[..|st1.trace|][..|st.trace|] == st'.trace[..|st.trace|];
          }
      }
    }
  }

  lemma {:induction false} MissingDependsOnKeysOnly(dc: Datacenter, s1: map<Key, Service>, s2: map<Key, Service>, ps: seq<Service>)
    requires s1.Keys == s2.Keys
    ensures Missing(dc, s1, ps) == Missing(dc, s2, ps)
    decreases |ps|
  {
    if ps != [] {
      MissingDependsOnKeysOnly(dc, s1, s2, ps[1..]);
    }
  }

  /** A check loop that gets through queues exactly the missing services, in their order. */
  lemma {:induction false} CheckQueuesMissingInOrder(dc: Datacenter, faults: Faults, st: CheckState, ps: seq<Service>)
    requires CheckFrom(dc, faults, st, ps).0 == Continue
    ensures CheckFrom(dc, faults, st, ps).1.createNeeded == st.createNeeded + Missing(dc, st.store, ps)
    decreases |ps|
  {
    if ps != [] {
      var key := ps[0].NsName();
      var desired := SetControllerReference(dc, ps[0]);
      match Get(st.store, faults, key)
      case NotFound =>
        CheckQueuesMissingInOrder(dc, faults, st.(createNeeded := st.createNeeded + [desired]), ps[1..]);
      case Found(current) =>
        if current.hash == desired.hash {
          CheckQueuesMissingInOrder(dc, faults, st, ps[1..]);
        } else {
          var updated := MergeForUpdate(desired, current);
          var st1 := st.(store := st.store[key := updated], trace := st.trace + [Updated(updated)]);
          CheckQueuesMissingInOrder(dc, faults, st1, ps[1..]);
          MissingDependsOnKeysOnly(dc, st1.store, st.store, ps[1..]);
        }
    }
  }

  /** Writing a key that no later service uses does not change what the rest of the loop sees. */
  lemma {:induction false} StaleFrame(dc: Datacenter, faults: Faults, store: map<Key, Service>, k: Key, v: Service, ps: seq<Service>)
    requires k in store && k !in KeysOf(ps)
    ensures Stale(dc, store[k := v], ps) == Stale(dc, store, ps)
    ensures CheckCanPass(faults, store[k := v], ps) == CheckCanPass(faults, store, ps)
    decreases |ps|
  {
    if ps != [] {
      assert ps[0].NsName() in KeysOf(ps);
      assert KeysOf(ps[1..]) <= KeysOf(ps) by {
        forall x | x in KeysOf(ps[1..]) ensures x in KeysOf(ps) {
          var i :| 0 <= i < |ps[1..]| && ps[1..][i].NsName() == x;
          assert ps[i + 1].NsName() == x;
        }
      }
      StaleFrame(dc, faults, store, k, v, ps[1..]);
    }
  }

  lemma DistinctTail(ps: seq<Service>)
    requires ps != [] && DistinctKeys(ps)
    ensures DistinctKeys(ps[1..])
    ensures ps[0].NsName() !in KeysOf(ps[1..])
  {
    forall i | 0 <= i < |ps[1..]|
      ensures ps[1..][i].NsName() != ps[0].NsName()
    {
      assert ps[1..][i] == ps[i + 1];
    }
  }

  /**
   * With distinct keys the check loop gets through exactly when no collaborator call it
   * makes fails, and then its writes are exactly the merged updates of the services
   * stored with a different hash, in order.
   */
  lemma {:induction false} CheckMatchesReference(dc: Datacenter, faults: Faults, st: CheckState, ps: seq<Service>)
    requires DistinctKeys(ps)
    ensures var (r, st') := CheckFrom(dc, faults, st, ps);
      && (r == Continue <==> CheckCanPass(faults, st.store, ps))
      && (r == Continue ==>
            && st'.store == Upsert(st.store, Stale(dc, st.store, ps))
            && st'.trace == st.trace + UpdateWrites(Stale(dc, st.store, ps)))
    decreases |ps|
  {
    if ps != [] {
      DistinctTail(ps);
      var key := ps[0].NsName();
      var desired := SetControllerReference(dc, ps[0]);
      if key !in faults.ownerReference {
        match Get(st.store, faults, key)
        case NotFound =>
          CheckMatchesReference(dc, faults, st.(createNeeded := st.createNeeded + [desired]), ps[1..]);
          assert key !in st.store;
          assert Stale(dc, st.store, ps) == Stale(dc, st.store, ps[1..]);
        case LookupError =>
        case Found(current) =>
          if current.hash == desired.hash {
            CheckMatchesReference(dc, faults, st, ps[1..]);
            assert CheckFrom(dc, faults, st, ps) == CheckFrom(dc, faults, st, ps[1..]);
            assert Stale(dc, st.store, ps) == Stale(dc, st.store, ps[1..]);
          } else if key !in faults.update {
            var updated := MergeForUpdate(desired, current);
            var st1 := st.(store := st.store[key := updated], trace := st.trace + [Updated(updated)]);
            CheckMatchesReference(dc, faults, st1, ps[1..]);
            StaleFrame(dc, faults, st.store, key, updated, ps[1..]);
            var rest := Stale(dc, st.store, ps[1..]);
            assert Stale(dc, st.store, ps) == [updated] + rest;
            assert ([updated] + rest)[1..] == rest;
            assert st.trace + [Updated(updated)] + UpdateWrites(rest) == st.trace + UpdateWrites([updated] + rest);
          }
      }
    }
  }

  /** A prefix of a list has no key the list lacks. */
  lemma KeysOfPrefix(ps: seq<Service>, m: nat)
    requires m <= |ps|
    ensures KeysOf(ps[..m]) <= KeysOf(ps)
  {
    forall x | x in KeysOf(ps[..m]) ensures x in KeysOf(ps) {
      var i :| 0 <= i < m && ps[..m][i].NsName() == x;
      assert ps[i].NsName() == x;
    }
  }

  /** Writing a key that no service of `ps` uses does not move the first failure. */
  lemma {:induction false} FailureFrame(faults: Faults, store: map<Key, Service>, k: Key, v: Service, ps: seq<Service>)
    requires k !in KeysOf(ps)
    ensures FailureIndex(faults, store[k := v], ps) == FailureIndex(faults, store, ps)
    ensures forall i | 0 <= i < |ps| :: StepFailure(faults, store[k := v], ps[i]) == StepFailure(faults, store, ps[i])
    decreases |ps|
  {
    forall i | 0 <= i < |ps|
      ensures StepFailure(faults, store[k := v], ps[i]) == StepFailure(faults, store, ps[i])
    {
      assert ps[i].NsName() in KeysOf(ps);
    }
    if ps != [] {
      assert KeysOf(ps[1..]) <= KeysOf(ps) by {
        forall x | x in KeysOf(ps[1..]) ensures x in KeysOf(ps) {
          var i :| 0 <= i < |ps[1..]| && ps[1..][i].NsName() == x;
          assert ps[i + 1].NsName() == x;
        }
      }
      FailureFrame(faults, store, k, v, ps[1..]);
    }
  }

  /**
   * With distinct keys a check loop that fails stops at the first service whose calls
   * fail: it got through every service before it, returns the error of that service's
   * failing call, and has written exactly the updates of the services before it.
   */
  lemma {:induction false} CheckErrorStopsAtFirstFailure(dc: Datacenter, faults: Faults, st: CheckState, ps: seq<Service>)
    requires DistinctKeys(ps)
    requires CheckFrom(dc, faults, st, ps).0.Error?
    ensures var (r, st') := CheckFrom(dc, faults, st, ps);
      var m := FailureIndex(faults, st.store, ps);
      && m < |ps|
      && CheckCanPass(faults, st.store, ps[..m])
      && StepFailure(faults, st.store, ps[m]) == Some(r.cause)
      && st'.store == Upsert(st.store, Stale(dc, st.store, ps[..m]))
      && st'.trace == st.trace + UpdateWrites(Stale(dc, st.store, ps[..m]))
    decreases |ps|, 1
  {
    var key := ps[0].NsName();
    if key in faults.ownerReference || key in faults.get {
      assert ps[..0] == [];
    } else if key !in st.store || st.store[key].hash == ps[0].hash {
      CheckErrorAfterSkip(dc, faults, st, ps);
    } else if key in faults.update {
      assert ps[..0] == [];
    } else {
      CheckErrorAfterUpdate(dc, faults, st, ps);
    }
  }

  /** The inductive case of `CheckErrorStopsAtFirstFailure` where the first service is current or missing. */
  lemma {:induction false} CheckErrorAfterSkip(dc: Datacenter, faults: Faults, st: CheckState, ps: seq<Service>)
    requires DistinctKeys(ps)
    requires CheckFrom(dc, faults, st, ps).0.Error?
    requires ps != [] && StepFailure(faults, st.store, ps[0]) == None
    requires ps[0].NsName() in st.store ==> st.store[ps[0].NsName()].hash == ps[0].hash
    ensures var (r, st') := CheckFrom(dc, faults, st, ps);
      var m := FailureIndex(faults, st.store, ps);
      && m < |ps|
      && CheckCanPass(faults, st.store, ps[..m])
      && StepFailure(faults, st.store, ps[m]) == Some(r.cause)
      && st'.store == Upsert(st.store, Stale(dc, st.store, ps[..m]))
      && st'.trace == st.trace + UpdateWrites(Stale(dc, st.store, ps[..m]))
    decreases |ps|, 0
  {
    DistinctTail(ps);
    var key := ps[0].NsName();
    var desired := SetControllerReference(dc, ps[0]);
    var st1 := if key in st.store then st else st.(createNeeded := st.createNeeded + [desired]);
    assert CheckFrom(dc, faults, st, ps) == CheckFrom(dc, faults, st1, ps[1..]);
    CheckErrorStopsAtFirstFailure(dc, faults, st1, ps[1..]);
    SkipStep(dc, faults, st.store, ps, FailureIndex(faults, st.store, ps[1..]));
  }

  /** The inductive case of `CheckErrorStopsAtFirstFailure` where the first service is updated. */
  lemma {:induction false} CheckErrorAfterUpdate(dc: Datacenter, faults: Faults, st: CheckState, ps: seq<Service>)
    requires DistinctKeys(ps)
    requires CheckFrom(dc, faults, st, ps).0.Error?
    requires ps != [] && StepFailure(faults, st.store, ps[0]) == None
    requires ps[0].NsName() in st.store && st.store[ps[0].NsName()].hash != ps[0].hash
    ensures var (r, st') := CheckFrom(dc, faults, st, ps);
      var m := FailureIndex(faults, st.store, ps);
      && m < |ps|
      && CheckCanPass(faults, st.store, ps[..m])
      && StepFailure(faults, st.store, ps[m]) == Some(r.cause)
      && st'.store == Upsert(st.store, Stale(dc, st.store, ps[..m]))
      && st'.trace == st.trace + UpdateWrites(Stale(dc, st.store, ps[..m]))
    decreases |ps|, 0
  {
    DistinctTail(ps);
    var key := ps[0].NsName();
    var updated := MergeForUpdate(SetControllerReference(dc, ps[0]), st.store[key]);
    var st1 := st.(store := st.store[key := updated], trace := st.trace + [Updated(updated)]);
    CheckUpdateStep(dc, faults, st, ps);
    CheckErrorStopsAtFirstFailure(dc, faults, st1, ps[1..]);
    var m := FailureIndex(faults, st.store, ps[1..]);
    UpdateStep(dc, faults, st.store, ps, m);
    var rest := UpdateWrites(Stale(dc, st.store, ps[1..][..m]));
    assert st1.trace + rest == st.trace + ([Updated(updated)] + rest);
  }

  /** The check loop's step over a service stored with another hash whose update succeeds. */
  lemma CheckUpdateStep(dc: Datacenter, faults: Faults, st: CheckState, ps: seq<Service>)
    requires ps != [] && StepFailure(faults, st.store, ps[0]) == None
    requires ps[0].NsName() in st.store && st.store[ps[0].NsName()].hash != ps[0].hash
    ensures var key := ps[0].NsName();
      var updated := MergeForUpdate(SetControllerReference(dc, ps[0]), st.store[key]);
      CheckFrom(dc, faults, st, ps)
        == CheckFrom(dc, faults, st.(store := st.store[key := updated], trace := st.trace + [Updated(updated)]), ps[1..])
  {
  }

  /** The reference definitions one step into `ps`, when its first service is stored current or missing. */
  lemma SkipStep(dc: Datacenter, faults: Faults, store: map<Key, Service>, ps: seq<Service>, m: nat)
    requires ps != [] && StepFailure(faults, store, ps[0]) == None
    requires ps[0].NsName() in store ==> store[ps[0].NsName()].hash == ps[0].hash
    requires m < |ps| - 1
    ensures FailureIndex(faults, store, ps) == m + 1 <==> FailureIndex(faults, store, ps[1..]) == m
    ensures ps[1..][m] == ps[m + 1]
    ensures CheckCanPass(faults, store, ps[1..][..m]) ==> CheckCanPass(faults, store, ps[..m + 1])
    ensures Stale(dc, store, ps[..m + 1]) == Stale(dc, store, ps[1..][..m])
  {
    PrefixStep(ps, m);
  }

  /** The reference definitions one step into `ps`, when its first service is stored with another hash. */
  lemma UpdateStep(dc: Datacenter, faults: Faults, store: map<Key, Service>, ps: seq<Service>, m: nat)
    requires ps != [] && DistinctKeys(ps) && StepFailure(faults, store, ps[0]) == None
    requires ps[0].NsName() in store && store[ps[0].NsName()].hash != ps[0].hash
    requires m < |ps| - 1
    ensures var updated := MergeForUpdate(SetControllerReference(dc, ps[0]), store[ps[0].NsName()]);
      var store1 := store[ps[0].NsName() := updated];
      && (FailureIndex(faults, store, ps) == m + 1 <==> FailureIndex(faults, store1, ps[1..]) == m)
      && ps[1..][m] == ps[m + 1]
      && StepFailure(faults, store1, ps[m + 1]) == StepFailure(faults, store, ps[m + 1])
      && (CheckCanPass(faults, store1, ps[1..][..m]) ==> CheckCanPass(faults, store, ps[..m + 1]))
      && Stale(dc, store1, ps[1..][..m]) == Stale(dc, store, ps[1..][..m])
      && Stale(dc, store, ps[..m + 1]) == [updated] + Stale(dc, store, ps[1..][..m])
      && Upsert(store, Stale(dc, store, ps[..m + 1])) == Upsert(store1, Stale(dc, store, ps[1..][..m]))
      && UpdateWrites(Stale(dc, store, ps[..m + 1])) == [Updated(updated)] + UpdateWrites(Stale(dc, store, ps[1..][..m]))
  {
    var key := ps[0].NsName();
    var updated := MergeForUpdate(SetControllerReference(dc, ps[0]), store[key]);
    DistinctTail(ps);
    PrefixStep(ps, m);
    FailureFrame(faults, store, key, updated, ps[1..]);
    KeysOfPrefix(ps[1..], m);
    StaleFrame(dc, faults, store, key, updated, ps[1..][..m]);
    var rest := Stale(dc, store, ps[1..][..m]);
    assert Stale(dc, store, ps[..m + 1]) == [updated] + rest;
    assert ([updated] + rest)[1..] == rest;
  }

  /** Services stored with their desired hash are left alone: nothing is written or queued. */
  lemma {:induction false} CheckIsNoOpWhenHashesMatch(dc: Datacenter, faults: Faults, st: CheckState, ps: seq<Service>)
    requires forall i | 0 <= i < |ps| ::
      var key := ps[i].NsName();
      key !in faults.ownerReference && key !in faults.get && key in st.store && st.store[key].hash == ps[i].hash
    ensures CheckFrom(dc, faults, st, ps) == (Continue, st)
    decreases |ps|
  {
    if ps != [] {
      assert forall i | 0 <= i < |ps[1..]| :: ps[1..][i] == ps[i + 1];
      CheckIsNoOpWhenHashesMatch(dc, faults, st, ps[1..]);
    }
  }

  /** The update object carries the desired content and hash but keeps the platform's fields. */
  lemma UpdatePreservesPlatformFields(dc: Datacenter, desired: Service, current: Service)
    ensures var u := MergeForUpdate(SetControllerReference(dc, desired), current);
      && u.clusterIP == current.clusterIP && u.resourceVersion == current.resourceVersion
      && u.hash == desired.hash && u.content == desired.content
      && u.NsName() == desired.NsName() && u.ownerReference == Some(dc.name)
  {
  }

  // ---------------------------------------------------------------- the create batch

  /** How many services of `pending` the create batch gets through, starting from `store`. */
  function CreatedCount(faults: Faults, store: map<Key, Service>, pending: seq<Service>): (n: nat)
    ensures n <= |pending|
    decreases |pending|
  {
    if pending == [] then 0
    else
      var key := pending[0].NsName();
      if key in faults.progressStatus || key in store || key in faults.create then 0
      else 1 + CreatedCount(faults, store[key := pending[0]], pending[1..])
  }

  /** The writes of a create batch that stops after `n` creates, given where it stopped. */
  function BatchWrites(faults: Faults, pending: seq<Service>, n: nat): seq<Write>
    requires n <= |pending|
  {
    CreateWrites(pending[..n])
      + (if n < |pending| && pending[n].NsName() !in faults.progressStatus then [ProgressUpdating] else [])
  }

  lemma PrefixStep(pending: seq<Service>, n: nat)
    requires n < |pending|
    ensures pending[..n + 1] == [pending[0]] + pending[1..][..n]
    ensures pending[..n + 1][1..] == pending[1..][..n]
  {
  }

  /** A batch that creates `m + 1` services is the first create followed by a batch of `m`. */
  lemma BatchStep(faults: Faults, store: map<Key, Service>, pending: seq<Service>, m: nat)
    requires m < |pending|
    ensures Upsert(store, pending[..m + 1]) == Upsert(store[pending[0].NsName() := pending[0]], pending[1..][..m])
    ensures CreatedEvents(pending[..m + 1]) == [CreatedEvent(pending[0])] + CreatedEvents(pending[1..][..m])
    ensures BatchWrites(faults, pending, m + 1)
      == [ProgressUpdating, Created(pending[0])] + BatchWrites(faults, pending[1..], m)
  {
    PrefixStep(pending, m);
    assert CreateWrites(pending[..m + 1]) == [ProgressUpdating, Created(pending[0])] + CreateWrites(pending[1..][..m]);
    assert m < |pending[1..]| ==> pending[1..][m] == pending[m + 1];
  }

  /**
   * The create batch creates a prefix of its services, in order, each preceded by a
   * progress update and followed by one event. It stops at the first failure: a
   * progress-status failure before the service's progress update, a create failure
   * (a service already stored, or a refused create) after it.
   */
  lemma {:induction false} CreateBatchShape(faults: Faults, w: World, pending: seq<Service>)
    ensures var (r, w') := CreateFrom(faults, w, pending);
      var n := CreatedCount(faults, w.store, pending);
      && (r == Continue <==> n == |pending|)
      && w'.store == Upsert(w.store, pending[..n])
      && w'.events == w.events + CreatedEvents(pending[..n])
      && w'.trace == w.trace + BatchWrites(faults, pending, n)
    decreases |pending|, 1
  {
    if pending == [] {
      assert pending[..0] == [];
    } else {
      var key := pending[0].NsName();
      if key in faults.progressStatus || key in w.store || key in faults.create {
        assert pending[..0] == [];
      } else {
        CreateBatchAfterCreate(faults, w, pending);
      }
    }
  }

  /** The inductive case of `CreateBatchShape`, where the first create succeeds. */
  lemma {:induction false} CreateBatchAfterCreate(faults: Faults, w: World, pending: seq<Service>)
    requires pending != []
    requires pending[0].NsName() !in faults.progressStatus
    requires pending[0].NsName() !in w.store && pending[0].NsName() !in faults.create
    ensures var (r, w') := CreateFrom(faults, w, pending);
      var n := CreatedCount(faults, w.store, pending);
      && (r == Continue <==> n == |pending|)
      && w'.store == Upsert(w.store, pending[..n])
      && w'.events == w.events + CreatedEvents(pending[..n])
      && w'.trace == w.trace + BatchWrites(faults, pending, n)
    decreases |pending|, 0
  {
    var service := pending[0];
    var key := service.NsName();
    var w2 := w.(store := w.store[key := service],
                 trace := w.trace + [ProgressUpdating] + [Created(service)],
                 events := w.events + [CreatedEvent(service)]);
    assert CreateFrom(faults, w, pending) == CreateFrom(faults, w2, pending[1..]);
    CreateBatchShape(faults, w2, pending[1..]);
    var m := CreatedCount(faults, w2.store, pending[1..]);
    BatchStep(faults, w.store, pending, m);
    assert w2.trace + BatchWrites(faults, pending[1..], m)
      == w.trace + ([ProgressUpdating, Created(service)] + BatchWrites(faults, pending[1..], m));
  }

  /** A create never replaces a stored object: every key already stored keeps its object. */
  lemma {:induction false} CreateNeverOverwrites(faults: Faults, w: World, pending: seq<Service>)
    ensures var w' := CreateFrom(faults, w, pending).1;
      forall k | k in w.store :: k in w'.store && w'.store[k] == w.store[k]
    decreases |pending|
  {
    if pending != [] {
      var service := pending[0];
      var key := service.NsName();
      if key !in faults.progressStatus && key !in w.store && key !in faults.create {
        var w1 := w.(trace := w.trace + [ProgressUpdating]);
        var w2 := w1.(store := w1.store[key := service],
                      trace := w1.trace + [Created(service)],
                      events := w1.events + [CreatedEvent(service)]);
        CreateNeverOverwrites(faults, w2, pending[1..]);
        var w' := CreateFrom(faults, w2, pending[1..]).1;
        forall k | k in w.store
          ensures k in w'.store && w'.store[k] == w.store[k]
        {
          assert k in w2.store && w2.store[k] == w.store[k];
        }
      }
    }
  }

  /** A batch that succeeds has stored every one of its services under its own key. */
  lemma {:induction false} CreateBatchStoresAll(faults: Faults, w: World, pending: seq<Service>)
    requires CreateFrom(faults, w, pending).0 == Continue
    ensures var w' := CreateFrom(faults, w, pending).1;
      forall j | 0 <= j < |pending| :: pending[j].NsName() in w'.store && w'.store[pending[j].NsName()] == pending[j]
    decreases |pending|
  {
    if pending != [] {
      var service := pending[0];
      var key := service.NsName();
      var w1 := w.(trace := w.trace + [ProgressUpdating]);
      var w2 := w1.(store := w1.store[key := service],
                    trace := w1.trace + [Created(service)],
                    events := w1.events + [CreatedEvent(service)]);
      CreateBatchStoresAll(faults, w2, pending[1..]);
      CreateNeverOverwrites(faults, w2, pending[1..]);
      var w' := CreateFrom(faults, w, pending).1;
      forall j | 0 <= j < |pending|
        ensures pending[j].NsName() in w'.store && w'.store[pending[j].NsName()] == pending[j]
      {
        if j > 0 {
          assert pending[j] == pending[1..][j - 1];
        }
      }
    }
  }

  // ---------------------------------------------------------------- the whole step

  lemma {:induction false} CreatedServicesAppend(a: seq<Write>, b: seq<Write>)
    ensures CreatedServices(a + b) == CreatedServices(a) + CreatedServices(b)
    decreases |a|
  {
    if a != [] {
      assert (a + b)[0] == a[0];
      assert (a + b)[1..] == a[1..] + b;
      CreatedServicesAppend(a[1..], b);
      var head := if a[0].Created? then [a[0].service] else [];
      assert a + b != [];
      assert CreatedServices(a + b) == head + CreatedServices((a + b)[1..]);
      assert CreatedServices(a + b) == head + (CreatedServices(a[1..]) + CreatedServices(b));
      assert CreatedServices(a) == head + CreatedServices(a[1..]);
    } else {
      assert a + b == b;
    }
  }

  lemma {:induction false} CreatedServicesOfCreateWrites(ps: seq<Service>)
    ensures CreatedServices(CreateWrites(ps)) == ps
    decreases |ps|
  {
    if ps != [] {
      var rest := CreateWrites(ps[1..]);
      CreatedServicesAppend([ProgressUpdating, Created(ps[0])], rest);
      assert CreatedServices([ProgressUpdating, Created(ps[0])]) == [ps[0]] by {
        assert [ProgressUpdating, Created(ps[0])][1..] == [Created(ps[0])];
      }
      CreatedServicesOfCreateWrites(ps[1..]);
    }
  }

  lemma {:induction false} NoCreatedAmongUpdates(ws: seq<Write>)
    requires forall j | 0 <= j < |ws| :: ws[j].Updated?
    ensures CreatedServices(ws) == []
    decreases |ws|
  {
    if ws != [] {
      NoCreatedAmongUpdates(ws[1..]);
    }
  }

  /** A create batch only appends to the trace, and records one event per create in it. */
  lemma CreateBatchEventsFollowCreates(faults: Faults, w: World, pending: seq<Service>)
    ensures var w' := CreateFrom(faults, w, pending).1;
      && |w.trace| <= |w'.trace| && w'.trace[..|w.trace|] == w.trace
      && w'.events == w.events + CreatedEvents(CreatedServices(w'.trace[|w.trace|..]))
  {
    CreateBatchShape(faults, w, pending);
    var w' := CreateFrom(faults, w, pending).1;
    var n := CreatedCount(faults, w.store, pending);
    var extra := if n < |pending| && pending[n].NsName() !in faults.progressStatus then [ProgressUpdating] else [];
    assert CreatedServices(extra) == [];
    CreatedServicesOfCreateWrites(pending[..n]);
    CreatedServicesAppend(CreateWrites(pending[..n]), extra);
    assert w'.trace[|w.trace|..] == CreateWrites(pending[..n]) + extra;
    assert CreatedServices(CreateWrites(pending[..n]) + extra) == pending[..n] + [];
    assert CreatedServices(w'.trace[|w.trace|..]) == pending[..n];
  }

  /** The check loop appends no create to the trace. */
  lemma CheckRecordsNoCreates(dc: Datacenter, faults: Faults, st: CheckState, ps: seq<Service>)
    ensures var st' := CheckFrom(dc, faults, st, ps).1;
      && |st.trace| <= |st'.trace| && st'.trace[..|st.trace|] == st.trace
      && CreatedServices(st'.trace[|st.trace|..]) == []
  {
    CheckWritesOnlyUpdates(dc, faults, st, ps);
    var st' := CheckFrom(dc, faults, st, ps).1;
    var suffix := st'.trace[|st.trace|..];
    assert forall j | 0 <= j < |suffix| :: suffix[j] == st'.trace[|st.trace| + j];
    NoCreatedAmongUpdates(suffix);
  }

  /** Two trace extensions chain: the events still follow the creates of the whole suffix. */
  lemma ChainTraces(t0: seq<Write>, t1: seq<Write>, t2: seq<Write>, e0: seq<Event>, e2: seq<Event>)
    requires |t0| <= |t1| && t1[..|t0|] == t0 && CreatedServices(t1[|t0|..]) == []
    requires |t1| <= |t2| && t2[..|t1|] == t1 && e2 == e0 + CreatedEvents(CreatedServices(t2[|t1|..]))
    ensures |t0| <= |t2| && t2[..|t0|] == t0
    ensures e2 == e0 + CreatedEvents(CreatedServices(t2[|t0|..]))
  {
    assert t2[..|t0|] == t1[..|t0|];
    var a, b := t1[|t0|..], t2[|t1|..];
    assert t2 == t1 + b;
    assert t2[|t0|..] == a + b;
    CreatedServicesAppend(a, b);
    assert CreatedServices(a + b) == CreatedServices(b);
  }

  /**
   * The step only appends to the write trace and the event log, and the events it
   * records are exactly one per service it created, in the order of the creates:
   * updates record no events.
   */
  lemma EventsFollowCreates(dc: Datacenter, faults: Faults, w: World)
    ensures var w' := CheckHeadless(dc, faults, w).1;
      && |w.trace| <= |w'.trace| && w'.trace[..|w.trace|] == w.trace
      && w'.events == w.events + CreatedEvents(CreatedServices(w'.trace[|w.trace|..]))
  {
    var start := CheckState(w.store, w.trace, []);
    var (result, st) := CheckFrom(dc, faults, start, DesiredServices(dc));
    CheckRecordsNoCreates(dc, faults, start, DesiredServices(dc));
    var checked := w.(store := st.store, trace := st.trace);
    if result.Continue? && |st.createNeeded| > 0 {
      var w0 := checked.(services := st.createNeeded);
      CreateBatchEventsFollowCreates(faults, w0, st.createNeeded);
      var w' := CreateFrom(faults, w0, st.createNeeded).1;
      ChainTraces(w.trace, st.trace, w'.trace, w.events, w'.events);
    }
  }

  /**
   * A failure while checking aborts the step with an error: no creates, no events, the
   * services field untouched, while the updates issued before the failure stay written.
   * With distinct keys the step stops at the first desired service whose calls fail,
   * returns the error of that call, and has written the updates of the services before
   * it and nothing else.
   */
  lemma CheckFailureAbortsBeforeCreates(dc: Datacenter, faults: Faults, w: World)
    requires CheckFrom(dc, faults, CheckState(w.store, w.trace, []), DesiredServices(dc)).0.Error?
    ensures var (r, w') := CheckHeadless(dc, faults, w);
      && r == CheckFrom(dc, faults, CheckState(w.store, w.trace, []), DesiredServices(dc)).0
      && w'.services == w.services && w'.events == w.events
      && w'.store.Keys == w.store.Keys
      && |w.trace| <= |w'.trace| && w'.trace[..|w.trace|] == w.trace
      && forall j | |w.trace| <= j < |w'.trace| :: w'.trace[j].Updated?
    ensures var (r, w') := CheckHeadless(dc, faults, w);
      var ds := DesiredServices(dc);
      var m := FailureIndex(faults, w.store, ds);
      DistinctKeys(ds) ==>
        && m < |ds|
        && CheckCanPass(faults, w.store, ds[..m])
        && StepFailure(faults, w.store, ds[m]) == Some(r.cause)
        && w'.store == Upsert(w.store, Stale(dc, w.store, ds[..m]))
        && w'.trace == w.trace + UpdateWrites(Stale(dc, w.store, ds[..m]))
  {
    var start := CheckState(w.store, w.trace, []);
    CheckWritesOnlyUpdates(dc, faults, start, DesiredServices(dc));
    if DistinctKeys(DesiredServices(dc)) {
      CheckErrorStopsAtFirstFailure(dc, faults, start, DesiredServices(dc));
    }
  }

  /** A lookup failure on the first desired service ends the step with no write at all. */
  lemma FirstLookupFailureWritesNothing(dc: Datacenter, faults: Faults, w: World)
    requires dc.cqlService.NsName() !in faults.ownerReference
    requires dc.cqlService.NsName() in faults.get
    ensures CheckHeadless(dc, faults, w) == (Error(GetFailed(dc.cqlService.NsName())), w)
  {
    assert DesiredServices(dc)[0] == dc.cqlService;
  }

  /**
   * When the check loop gets through, the services field becomes the queue of missing
   * services if there are any, and is left as it was otherwise, in which case the step
   * continues without creating anything.
   */
  lemma ServicesBecomeTheMissingOnes(dc: Datacenter, faults: Faults, w: World)
    requires CheckFrom(dc, faults, CheckState(w.store, w.trace, []), DesiredServices(dc)).0 == Continue
    ensures var missing := Missing(dc, w.store, DesiredServices(dc));
      var (r, w') := CheckHeadless(dc, faults, w);
      && w'.services == (if missing == [] then w.services else missing)
      && (missing == [] ==> r == Continue && w'.events == w.events)
  {
    CheckQueuesMissingInOrder(dc, faults, CheckState(w.store, w.trace, []), DesiredServices(dc));
  }

  /**
   * After the check loop gets through with distinct keys, every desired service is
   * either stored with its desired hash or queued for creation (it was missing).
   */
  lemma {:induction false} CheckLeavesEachCurrentOrQueued(dc: Datacenter, faults: Faults, st: CheckState, ps: seq<Service>)
    requires DistinctKeys(ps)
    requires CheckFrom(dc, faults, st, ps).0 == Continue
    ensures var st' := CheckFrom(dc, faults, st, ps).1;
      forall i | 0 <= i < |ps| ::
        var key := ps[i].NsName();
        && key !in faults.ownerReference && key !in faults.get
        && (|| (key in st'.store && st'.store[key].hash == ps[i].hash)
            || (key !in st.store && SetControllerReference(dc, ps[i]) in st'.createNeeded))
    decreases |ps|
  {
    if ps != [] {
      DistinctTail(ps);
      var key := ps[0].NsName();
      var desired := SetControllerReference(dc, ps[0]);
      var st' := CheckFrom(dc, faults, st, ps).1;
      var st1 :=
        match Get(st.store, faults, key)
        case NotFound => st.(createNeeded := st.createNeeded + [desired])
        case Found(current) =>
          if current.hash == desired.hash then st
          else
            var updated := MergeForUpdate(desired, current);
            st.(store := st.store[key := updated], trace := st.trace + [Updated(updated)])
        case LookupError => st;
      assert st' == CheckFrom(dc, faults, st1, ps[1..]).1;
      assert st1.store.Keys == st.store.Keys;
      CheckLeavesEachCurrentOrQueued(dc, faults, st1, ps[1..]);
      CheckWritesOnlyUpdates(dc, faults, st1, ps[1..]);
      if key !in st.store {
        assert st'.createNeeded[..|st1.createNeeded|] == st1.createNeeded;
        assert st'.createNeeded[|st.createNeeded|] == desired;
      } else {
        assert st'.store[key] == st1.store[key];
      }
      forall i | 1 <= i < |ps|
        ensures var k := ps[i].NsName();
          && k !in faults.ownerReference && k !in faults.get
          && (|| (k in st'.store && st'.store[k].hash == ps[i].hash)
              || (k !in st.store && SetControllerReference(dc, ps[i]) in st'.createNeeded))
      {
        assert ps[i] == ps[1..][i - 1];
      }
    }
  }

  /**
   * Idempotence: right after a pass that ends in Continue, with nothing changed in
   * between, a second pass performs no write, records no event and continues.
   */
  lemma SecondPassWritesNothing(dc: Datacenter, faults: Faults, w: World)
    requires DistinctKeys(DesiredServices(dc))
    requires CheckHeadless(dc, faults, w).0 == Continue
    ensures var w1 := CheckHeadless(dc, faults, w).1;
      CheckHeadless(dc, faults, w1) == (Continue, w1)
  {
    var ds := DesiredServices(dc);
    var start := CheckState(w.store, w.trace, []);
    var (result, st) := CheckFrom(dc, faults, start, ds);
    var w1 := CheckHeadless(dc, faults, w).1;
    CheckLeavesEachCurrentOrQueued(dc, faults, start, ds);
    CheckWritesOnlyUpdates(dc, faults, start, ds);
    var q := st.createNeeded;
    if |q| > 0 {
      var w0 := w.(store := st.store, trace := st.trace, services := q);
      CreateNeverOverwrites(faults, w0, q);
      CreateBatchStoresAll(faults, w0, q);
      forall i | 0 <= i < |ds|
        ensures ds[i].NsName() in w1.store && w1.store[ds[i].NsName()].hash == ds[i].hash
      {
        var key := ds[i].NsName();
        if !(key in st.store && st.store[key].hash == ds[i].hash) {
          var s := SetControllerReference(dc, ds[i]);
          var j :| 0 <= j < |q| && q[j] == s;
        }
      }
    }
    CheckIsNoOpWhenHashesMatch(dc, faults, CheckState(w1.store, w1.trace, []), ds);
  }
}
