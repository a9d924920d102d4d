/**
 The registry of the other services on the bus, kept by private end point. A join or keep-alive
 records a service, a leave removes it, and every message that is processed to its end also sweeps
 out the services that have been silent for more than 120 seconds.
 */
module ServiceRegistry {
  import opened Common
  import Text

  const ZOMBIE_SECONDS: nat := 120
  const EVENT_JOIN := "join"
  const EVENT_KEEP_ALIVE := "keep-alive"
  const EVENT_LEAVE := "leave"

  datatype Meta = Meta(id: u64, kind: string, privateEndPoint: string, publicEndPoint: string,
                       accessKey: string, version: string, lastUpdate: u64)

  type Registry = map<string, Meta>

  /** A payload that raises while it is read changes nothing and reaches no sweep. */
  datatype Payload =
    | Raises
    | Fields(id: Option<u64>, event: Option<string>, kind: Option<string>, publicEndPoint: Option<string>,
             privateEndPoint: Option<string>, version: Option<string>, key: Option<string>)

  datatype Message = Message(payload: Payload, now: u64)

  predicate Foreign(own: u64, p: Payload) {
    p.Fields? && p.id.Some? && p.event.Some? && p.id.value != own
  }

  predicate Complete(p: Payload) {
    p.Fields? && p.kind.Some? && p.publicEndPoint.Some? && p.privateEndPoint.Some? && p.version.Some? && p.key.Some?
  }

  /** A complete join, keep-alive or leave of another service. */
  predicate IsServiceEvent(own: u64, p: Payload) {
    Foreign(own, p) && p.event.value in {EVENT_JOIN, EVENT_KEEP_ALIVE, EVENT_LEAVE} && Complete(p)
  }

  function MetaOf(own: u64, m: Message): Meta
    requires IsServiceEvent(own, m.payload)
  {
    var p := m.payload;
    Meta(p.id.value, Text.ToLower(p.kind.value), p.privateEndPoint.value, p.publicEndPoint.value,
         p.key.value, p.version.value, m.now)
  }

  function Record(own: u64, services: Registry, m: Message): Registry {
    if !IsServiceEvent(own, m.payload) then services
    else if m.payload.event.value == EVENT_LEAVE then services - {m.payload.privateEndPoint.value}
    else services[m.payload.privateEndPoint.value := MetaOf(own, m)]
  }

  function Sweep(services: Registry, now: u64): Registry {
    map e | e in services && Since(now, services[e].lastUpdate) <= ZOMBIE_SECONDS :: services[e]
  }

  function Next(own: u64, services: Registry, m: Message): Registry {
    if m.payload.Raises? then services else Sweep(Record(own, services, m), m.now)
  }

  class MicroService {
    const id: u64
    var services: Registry

    ghost predicate Valid()
      reads this
    {
      WellKeyed(services)
    }

    constructor (id: u64)
      ensures Valid() && this.id == id && services == map[]
    {
      this.id := id;
      services := map[];
    }

    method BusMessageReceived(m: Message)
      requires Valid()
      modifies this
      ensures Valid() && services == Next(id, old(services), m)
    {
      var p := m.payload;
      if p.Raises? {
        return;
      }
      if p.id.Some? && p.event.Some? {
        var event := p.event.value;
        if p.id.value != id {
          if event == EVENT_JOIN || event == EVENT_KEEP_ALIVE || event == EVENT_LEAVE {
            if p.kind.Some? && p.publicEndPoint.Some? && p.privateEndPoint.Some? && p.version.Some? && p.key.Some? {
              var privateEndPoint := p.privateEndPoint.value;
              if event == EVENT_LEAVE {
                services := services - {privateEndPoint};
              } else {
                services := services[privateEndPoint :=
                  Meta(p.id.value, Text.ToLower(p.kind.value), p.privateEndPoint.value, p.publicEndPoint.value,
                       p.key.value, p.version.value, m.now)];
              }
            }
          }
        }
      }
      assert services == Record(id, old(services), m);
      RemoveZombies(m.now);
    }

    method RemoveZombies(now: u64)
      modifies this
      ensures services == Sweep(old(services), now)
    {
      var left := services.Keys;
      while left != {}
        invariant left <= services.Keys <= old(services).Keys
        invariant forall e :: e in services ==> services[e] == old(services)[e]
        invariant forall e :: e in old(services) && e !in left ==>
          (e in services <==> Since(now, old(services)[e].lastUpdate) <= ZOMBIE_SECONDS)
        decreases left
      {
        var hint :| hint in left;
        if Since(now, services[hint].lastUpdate) > ZOMBIE_SECONDS {
          services := services - {hint};
        }
        left := left - {hint};
      }
    }

    /** The services of one type, whatever the case of its name, in the order of their end points. */
    method GetServicesOfType(kind: string) returns (res: seq<Meta>)
      requires Valid()
      ensures forall m :: m in res <==> m in services.Values && m.kind == Text.ToLower(kind)
      ensures Sorted(res)
    {
      var wanted := Text.ToLower(kind);
      var left := services.Keys;
      res := [];
      while left != {}
        invariant left <= services.Keys
        invariant forall m :: m in res <==>
          m in services.Values && m.kind == wanted && m.privateEndPoint !in left
        invariant forall i, e :: 0 <= i < |res| && e in left ==> Before(res[i].privateEndPoint, e)
        invariant Sorted(res)
        decreases left
      {
        ghost var all := left;
        ghost var least := Text.LeastExists(left);
        var e :| e in left && Text.IsLeast(left, e);
        assert services[e] in services.Values;
        if services[e].kind == wanted {
          res := res + [services[e]];
        }
        left := left - {e};
        forall i, x | 0 <= i < |res| && x in left ensures Before(res[i].privateEndPoint, x) {
          if res[i].privateEndPoint == e {
            assert x in all && Text.IsLeast(all, e);
          }
        }
      }
    }
  }

  predicate Before(a: string, b: string) {
    a != b && Text.Leq(a, b)
  }

  predicate Sorted(s: seq<Meta>) {
    forall i, j :: 0 <= i < j < |s| ==> Before(s[i].privateEndPoint, s[j].privateEndPoint)
  }

  predicate WellKeyed(services: Registry) {
    forall e :: e in services ==> services[e].privateEndPoint == e
  }

  // ---------- The registry as a function of the message history ----------

  function After(own: u64, run: seq<Message>): Registry {
    if run == [] then map[] else Next(own, After(own, Front(run)), Last(run))
  }

  predicate Clocked(run: seq<Message>) {
    forall i, j :: 0 <= i < j < |run| ==> run[i].now <= run[j].now
  }

  /** `n` is the position of the last service event about end point `e`. */
  ghost predicate IsLastEvent(own: u64, run: seq<Message>, e: string, n: nat) {
    && n < |run| && EventAbout(own, run[n], e)
    && forall k :: n < k < |run| ==> !EventAbout(own, run[k], e)
  }

  predicate EventAbout(own: u64, m: Message, e: string) {
    IsServiceEvent(own, m.payload) && m.payload.privateEndPoint.value == e
  }

  /** The time of the last message that was processed to its end. */
  function LastSweep(run: seq<Message>): u64 {
    if run == [] then 0
    else if Last(run).payload.Raises? then LastSweep(Front(run))
    else Last(run).now
  }

  /** What the history alone says the registry should hold for an end point. */
  function Expected(own: u64, run: seq<Message>, e: string, now: u64): Option<Meta> {
    if run == [] then None
    else if EventAbout(own, Last(run), e) then
      if Last(run).payload.event.value != EVENT_LEAVE && now - Last(run).now <= ZOMBIE_SECONDS
      then Some(MetaOf(own, Last(run))) else None
    else Expected(own, Front(run), e, now)
  }

  function Lookup(services: Registry, e: string): Option<Meta> {
    if e in services then Some(services[e]) else None
  }

  lemma {:induction false} LastSweepBounds(run: seq<Message>)
    requires Clocked(run) && run != []
    ensures LastSweep(run) <= Last(run).now
    ensures LastSweep(Front(run)) <= LastSweep(run)
  {
    if |run| > 1 {
      LastSweepBounds(Front(run));
      assert run[|run| - 2].now <= Last(run).now;
    }
  }

  /** Letting time pass only drops what has become too old. */
  lemma {:induction false} ExpectedLater(own: u64, run: seq<Message>, e: string, now: u64, later: u64)
    requires now <= later
    ensures Expected(own, run, e, later) ==
      match Expected(own, run, e, now)
      case None => None
      case Some(m) => if later - m.lastUpdate <= ZOMBIE_SECONDS then Some(m) else None
  {
    if run != [] {
      ExpectedLater(own, Front(run), e, now, later);
    }
  }

  lemma {:induction false} ExpectedIsPast(own: u64, run: seq<Message>, e: string, now: u64)
    requires Clocked(run) && Expected(own, run, e, now).Some? && run != []
    ensures Expected(own, run, e, now).value.lastUpdate <= Last(run).now
  {
    if !EventAbout(own, Last(run), e) && |run| > 1 {
      ExpectedIsPast(own, Front(run), e, now);
      assert run[|run| - 2].now <= Last(run).now;
    }
  }

  /** The registry after any history is what the history says it should be. */
  lemma {:induction false} RegistryIsHistory(own: u64, run: seq<Message>, e: string)
    requires Clocked(run)
    ensures Lookup(After(own, run), e) == Expected(own, run, e, LastSweep(run))
  {
    if run != [] {
      var before, m := Front(run), Last(run);
      RegistryIsHistory(own, before, e);
      if !m.payload.Raises? {
        LastSweepBounds(run);
        ExpectedLater(own, before, e, LastSweep(before), m.now);
        if Expected(own, before, e, LastSweep(before)).Some? {
          ExpectedIsPast(own, before, e, LastSweep(before));
          assert Last(before) == run[|run| - 2];
        }
      }
    }
  }

  lemma {:induction false} ExpectedByPosition(own: u64, run: seq<Message>, e: string, now: u64)
    ensures Expected(own, run, e, now).Some? <==>
      exists n: nat :: IsLastEvent(own, run, e, n) && run[n].payload.event.value != EVENT_LEAVE &&
                  now - run[n].now <= ZOMBIE_SECONDS
    ensures forall n: nat :: IsLastEvent(own, run, e, n) && Expected(own, run, e, now).Some? ==>
      Expected(own, run, e, now).value == MetaOf(own, run[n])
  {
    if run != [] {
      var before, k := Front(run), |run| - 1;
      if EventAbout(own, run[k], e) {
        assert IsLastEvent(own, run, e, k);
      } else {
        ExpectedByPosition(own, before, e, now);
        forall n: nat ensures IsLastEvent(own, run, e, n) == IsLastEvent(own, before, e, n) {
        }
      }
    }
  }

  /**
   An end point is registered exactly when the last complete event of another service about it was a
   join or keep-alive at most 120 seconds before the last processed message, and then with exactly
   that event's data.
   */
  lemma RegisteredIff(own: u64, run: seq<Message>, e: string)
    requires Clocked(run)
    ensures e in After(own, run) <==>
      exists n: nat :: IsLastEvent(own, run, e, n) && run[n].payload.event.value != EVENT_LEAVE &&
                  LastSweep(run) - run[n].now <= ZOMBIE_SECONDS
    ensures forall n: nat :: e in After(own, run) && IsLastEvent(own, run, e, n) ==>
      After(own, run)[e] == MetaOf(own, run[n])
  {
    RegistryIsHistory(own, run, e);
    ExpectedByPosition(own, run, e, LastSweep(run));
  }

  /** No entry is the service's own, every entry sits under its own end point, and types are lower case. */
  lemma {:induction false} RegistryInvariant(own: u64, run: seq<Message>)
    ensures WellKeyed(After(own, run))
    ensures forall e :: e in After(own, run) ==>
      After(own, run)[e].id != own && Text.ToLower(After(own, run)[e].kind) == After(own, run)[e].kind
  {
    if run != [] {
      RegistryInvariant(own, Front(run));
      if Last(run).payload.Fields? && Last(run).payload.kind.Some? {
        Text.ToLowerIdempotent(Last(run).payload.kind.value);
      }
    }
  }

  // ---------- What one message does ----------

  /** The message is a complete event of this name about end point `e`, from service `id`. */
  predicate Tells(p: Payload, event: string, id: u64, e: string) {
    && p.Fields? && p.id == Some(id) && p.event == Some(event) && p.privateEndPoint == Some(e)
    && p.kind.Some? && p.publicEndPoint.Some? && p.version.Some? && p.key.Some?
  }

  /** A join or keep-alive of another service is in the registry afterwards, with every field of the message in its place. */
  lemma JoinRegisters(own: u64, services: Registry, m: Message, id: u64, e: string)
    requires id != own && (Tells(m.payload, "join", id, e) || Tells(m.payload, "keep-alive", id, e))
    ensures e in Next(own, services, m)
    ensures var entry := Next(own, services, m)[e];
      && entry.id == id && entry.kind == Text.ToLower(m.payload.kind.value) && entry.privateEndPoint == e
      && entry.publicEndPoint == m.payload.publicEndPoint.value && entry.accessKey == m.payload.key.value
      && entry.version == m.payload.version.value && entry.lastUpdate == m.now
  {
    hide Text.ToLower;
  }

  /** A leave of another service takes its end point out. */
  lemma LeaveRemoves(own: u64, services: Registry, m: Message, id: u64, e: string)
    requires id != own && Tells(m.payload, "leave", id, e)
    ensures e !in Next(own, services, m)
  {
    hide Text.ToLower;
  }

  /**
   Any other message, also one that says nothing of services, lacks a field or is the service's own,
   only lets time pass: an end point stays exactly while its entry is at most 120 seconds old, unless
   reading the message raises, which changes nothing.
   */
  lemma OthersOnlySweep(own: u64, services: Registry, m: Message, e: string)
    requires forall id: u64 :: id != own ==>
      !Tells(m.payload, "join", id, e) && !Tells(m.payload, "keep-alive", id, e) && !Tells(m.payload, "leave", id, e)
    requires e in services ==> services[e].lastUpdate <= m.now
    ensures e in Next(own, services, m) <==> e in services && (m.payload.Raises? || m.now - services[e].lastUpdate <= 120)
    ensures e in Next(own, services, m) ==> Next(own, services, m)[e] == services[e]
  {
    hide Text.ToLower;
    if m.payload.Fields? && m.payload.id.Some? {
      var id := m.payload.id.value;
      assert id != own ==> !Tells(m.payload, "join", id, e) && !Tells(m.payload, "keep-alive", id, e) && !Tells(m.payload, "leave", id, e);
    }
  }
}
