/**
 * The headless-service step of a datacenter reconcile pass: build the desired services,
 * compare each with the live one by content hash, update the ones that drifted, queue the
 * missing ones, and then create the queued ones in a batch with one event each.
 *
 * The resource store is a map from (name, namespace) to the stored service. The
 * collaborators whose behaviour is not part of this model (stamping the owner reference,
 * the store's lookup, update and create calls, setting the progress status) succeed or
 * fail as a `Faults` value says.
 */
module ReconcileServices {
  import opened Wrappers

  datatype Key = Key(name: string, namespace: string)

  /**
   * A service object. `hash` is the canonical hash of the desired content, `clusterIP`
   * and `resourceVersion` are assigned by the platform, `content` stands for the rest of
   * the specification.
   */
  datatype Service = Service(
    name: string,
    namespace: string,
    hash: string,
    clusterIP: string,
    resourceVersion: string,
    ownerReference: Option<string>,
    content: string)
  {
    function NsName(): Key { Key(name, namespace) }
  }

  /**
   * The datacenter resource, with the services its constructors derive from it. Those
   * constructors are not part of this model; their results are taken as given.
   */
  datatype Datacenter = Datacenter(
    name: string,
    nodePortEnabled: bool,
    cqlService: Service,
    seedService: Service,
    allPodsService: Service,
    additionalSeedService: Service,
    nodePortService: Service)

  datatype Cause =
    | OwnerReferenceFailed(key: Key)
    | GetFailed(key: Key)
    | UpdateFailed(key: Key)
    | ProgressStatusFailed(key: Key)
    | CreateFailed(key: Key)

  /** Outcome of a reconcile step. */
  datatype ReconcileResult = Continue | Done | Error(cause: Cause)

  /** What a lookup in the store can give. */
  datatype Lookup = Found(current: Service) | NotFound | LookupError

  /** The writes the step issues, in order. */
  datatype Write =
    | ProgressUpdating
    | Updated(service: Service)
    | Created(service: Service)

  datatype Event = Event(eventType: string, reason: string, message: string)

  /** The keys for which each collaborator call fails. */
  datatype Faults = Faults(
    ownerReference: set<Key>,
    get: set<Key>,
    update: set<Key>,
    progressStatus: set<Key>,
    create: set<Key>)

  /** Everything the step can change. */
  datatype World = World(
    store: map<Key, Service>,
    services: seq<Service>,
    events: seq<Event>,
    trace: seq<Write>)

  /** The desired services, in their fixed order; the node-port service only when enabled. */
  function DesiredServices(dc: Datacenter): (r: seq<Service>)
    ensures |r| == if dc.nodePortEnabled then 5 else 4
    ensures r[..4] == [dc.cqlService, dc.seedService, dc.allPodsService, dc.additionalSeedService]
    ensures dc.nodePortEnabled ==> r[4] == dc.nodePortService
  {
    var services := [dc.cqlService, dc.seedService, dc.allPodsService, dc.additionalSeedService];
    if dc.nodePortEnabled then services + [dc.nodePortService] else services
  }

  /** Stamps the datacenter as owner and controller. */
  function SetControllerReference(dc: Datacenter, service: Service): (r: Service)
    ensures r.ownerReference == Some(dc.name)
    ensures r.(ownerReference := service.ownerReference) == service
  {
    service.(ownerReference := Some(dc.name))
  }

  /** `client.Get`: the stored service under `key`, its absence, or a failure. */
  function Get(store: map<Key, Service>, faults: Faults, key: Key): (r: Lookup)
    ensures r == LookupError <==> key in faults.get
    ensures r == NotFound <==> key !in faults.get && key !in store
    ensures r.Found? <==> key !in faults.get && key in store
    ensures r.Found? ==> r.current == store[key]
  {
    if key in faults.get then LookupError
    else if key in store then Found(store[key])
    else NotFound
  }

  /**
   * The object sent by an update: the desired service, but with the cluster IP the
   * platform allocated and the resource version of the stored object.
   */
  function MergeForUpdate(desired: Service, current: Service): (r: Service)
    ensures r.clusterIP == current.clusterIP && r.resourceVersion == current.resourceVersion
    ensures r.(clusterIP := desired.clusterIP, resourceVersion := desired.resourceVersion) == desired
  {
    desired.(clusterIP := current.clusterIP, resourceVersion := current.resourceVersion)
  }

  /** The event recorded after a create: a normal event naming the created service. */
  function CreatedEvent(service: Service): (e: Event)
    ensures e.eventType == "Normal" && e.reason == "CreatedResource"
    ensures |e.message| > |service.name| && e.message[|e.message| - |service.name|..] == service.name
    ensures e.message[..|e.message| - |service.name|] == "Created service "
  {
    Event("Normal", "CreatedResource", "Created service " + service.name)
  }

  /** State threaded through the check loop. */
  datatype CheckState = CheckState(store: map<Key, Service>, trace: seq<Write>, createNeeded: seq<Service>)

  /** The check loop over the services still `pending`. */
  function CheckFrom(dc: Datacenter, faults: Faults, st: CheckState, pending: seq<Service>)
    : (r: (ReconcileResult, CheckState))
    ensures r.0.Continue? || r.0.Error?
    decreases |pending|
  {
    if pending == [] then (Continue, st)
    else
      var key := pending[0].NsName();
      if key in faults.ownerReference then (Error(OwnerReferenceFailed(key)), st)
      else
        var desired := SetControllerReference(dc, pending[0]);
        match Get(st.store, faults, key)
        case NotFound =>
          CheckFrom(dc, faults, st.(createNeeded := st.createNeeded + [desired]), pending[1..])
        case LookupError => (Error(GetFailed(key)), st)
        case Found(current) =>
          if current.hash == desired.hash then CheckFrom(dc, faults, st, pending[1..])
          else if key in faults.update then (Error(UpdateFailed(key)), st)
          else
            var updated := MergeForUpdate(desired, current);
            CheckFrom(dc, faults, st.(store := st.store[key := updated], trace := st.trace + [Updated(updated)]),
                      pending[1..])
  }

  /** The create loop over the services still `pending`. */
  function CreateFrom(faults: Faults, w: World, pending: seq<Service>): (r: (ReconcileResult, World))
    ensures r.0.Continue? || r.0.Error?
    ensures r.1.services == w.services
    decreases |pending|
  {
    if pending == [] then (Continue, w)
    else
      var service := pending[0];
      var key := service.NsName();
      if key in faults.progressStatus then (Error(ProgressStatusFailed(key)), w)
      else
        var w1 := w.(trace := w.trace + [ProgressUpdating]);
        if key in w1.store || key in faults.create then (Error(CreateFailed(key)), w1)
        else
          CreateFrom(faults, w1.(store := w1.store[key := service],
                                 trace := w1.trace + [Created(service)],
                                 events := w1.events + [CreatedEvent(service)]),
                     pending[1..])
  }

  /** The whole step: check every desired service, then create the missing ones if any. */
  function CheckHeadless(dc: Datacenter, faults: Faults, w: World): (r: (ReconcileResult, World))
    ensures r.0.Continue? || r.0.Error?
  {
    var (result, st) := CheckFrom(dc, faults, CheckState(w.store, w.trace, []), DesiredServices(dc));
    var checked := w.(store := st.store, trace := st.trace);
    if result.Error? then (result, checked)
    else if |st.createNeeded| > 0 then CreateFrom(faults, checked.(services := st.createNeeded), st.createNeeded)
    else (Continue, checked)
  }

  /** The reconciliation context of one pass, as far as this step uses it. */
  class ReconciliationContext {
    const datacenter: Datacenter
    const faults: Faults
    var store: map<Key, Service>
    var services: seq<Service>
    var events: seq<Event>
    var trace: seq<Write>

    function State(): World
      reads this
    {
      World(store, services, events, trace)
    }

    constructor (datacenter: Datacenter, faults: Faults, store: map<Key, Service>)
      ensures this.datacenter == datacenter && this.faults == faults
      ensures State() == World(store, [], [], [])
    {
      this.datacenter := datacenter;
      this.faults := faults;
      this.store := store;
      this.services := [];
      this.events := [];
      this.trace := [];
    }

    /** Creates every service in `services`, in order, with a progress update before and an event after each. */
    method CreateHeadlessServices() returns (r: ReconcileResult)
      modifies this
      ensures (r, State()) == CreateFrom(faults, old(State()), old(services))
    {
      var i := 0;
      while i < |services|
        invariant 0 <= i <= |services|
        invariant services == old(services)
        invariant CreateFrom(faults, old(State()), services) == CreateFrom(faults, State(), services[i..])
      {
        var service := services[i];
        var key := service.NsName();
        assert services[i..][0] == service && services[i..][1..] == services[i + 1..];
        if key in faults.progressStatus {
          return Error(ProgressStatusFailed(key));
        }
        trace := trace + [ProgressUpdating];
        if key in store || key in faults.create {
          return Error(CreateFailed(key));
        }
        store := store[key := service];
        trace := trace + [Created(service)];
        events := events + [CreatedEvent(service)];
        i := i + 1;
      }
      return Continue;
    }

    /** Checks the desired services against the store, updating drifted ones and creating missing ones. */
    method CheckHeadlessServices() returns (r: ReconcileResult)
      modifies this
      ensures (r, State()) == CheckHeadless(datacenter, faults, old(State()))
    {
      var desired := [datacenter.cqlService, datacenter.seedService,
                      datacenter.allPodsService, datacenter.additionalSeedService];
      if datacenter.nodePortEnabled {
        desired := desired + [datacenter.nodePortService];
      }
      assert desired == DesiredServices(datacenter);

      ghost var start := CheckState(store, trace, []);
      var createNeeded := [];
      var i := 0;
      while i < |desired|
        invariant 0 <= i <= |desired|
        invariant services == old(services) && events == old(events)
        invariant CheckFrom(datacenter, faults, start, desired)
               == CheckFrom(datacenter, faults, CheckState(store, trace, createNeeded), desired[i..])
      {
        var desiredSvc := desired[i];
        var key := desiredSvc.NsName();
        assert desired[i..][0] == desiredSvc && desired[i..][1..] == desired[i + 1..];
        if key in faults.ownerReference {
          return Error(OwnerReferenceFailed(key));
        }
        desiredSvc := SetControllerReference(datacenter, desiredSvc);
        match Get(store, faults, key) {
          case NotFound =>
            createNeeded := createNeeded + [desiredSvc];
          case LookupError =>
            return Error(GetFailed(key));
          case Found(currentService) =>
            if currentService.hash != desiredSvc.hash {
              var resourceVersion := currentService.resourceVersion;
              desiredSvc := desiredSvc.(clusterIP := currentService.clusterIP);
              var updated := desiredSvc.(resourceVersion := resourceVersion);
              if key in faults.update {
                return Error(UpdateFailed(key));
              }
              store := store[key := updated];
              trace := trace + [Updated(updated)];
            }
        }
        i := i + 1;
      }

      if |createNeeded| > 0 {
        services := createNeeded;
        r := CreateHeadlessServices();
        return;
      }
      return Continue;
    }
  }
}
