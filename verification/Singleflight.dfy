/**
 The leader election of `_Singleflight` in `cachine/decorators/cached.py`: a registry of events as
 a value, which the protocol of module Protocol interleaves, and the class that updates it in
 place.
 */
module Singleflight {
  import opened Wrappers

  /** An event, named by the group it was made for and its number. */
  datatype EventId = EventId(group: string, serial: nat)

  /** The registered events by group, the events that were set, and the number of the next event. */
  datatype Registry = Registry(events: map<string, EventId>, fired: set<EventId>, next: nat)

  const NO_EVENTS := Registry(map[], {}, 0)

  function Register(r: Registry, key: string): Registry {
    Registry(r.events[key := EventId(key, r.next)], r.fired, r.next + 1)
  }

  function Unregister(r: Registry, key: string): Registry {
    r.(events := r.events - {key})
  }

  function Fire(r: Registry, e: EventId): Registry {
    r.(fired := r.fired + {e})
  }

  /** `threading.Event`, as far as it is used here. */
  class Event {
    var isSet: bool

    constructor ()
      ensures !isSet
    {
      isSet := false;
    }
  }

  class SingleflightTable {
    var events: map<string, Event>
    // All events ever made, by their names, and the registry they stand for.
    ghost var names: map<Event, EventId>
    ghost var registry: Registry

    ghost predicate Valid()
      reads this, names.Keys
    {
      && events.Keys == registry.events.Keys
      && (forall k | k in events :: events[k] in names && names[events[k]] == registry.events[k])
      && (forall ev | ev in names :: ev.isSet <==> names[ev] in registry.fired)
      && (forall ev | ev in names :: names[ev].serial < registry.next)
      && (forall a, b | a in names && b in names && names[a] == names[b] :: a == b)
      && (forall e | e in registry.fired :: e.serial < registry.next)
    }

    constructor ()
      ensures Valid() && registry == NO_EVENTS && fresh(names.Keys)
    {
      events, names, registry := map[], map[], NO_EVENTS;
    }

    /** The first caller of a group leads and makes its event; later ones get that event. */
    method Acquire(key: string) returns (leader: bool, ev: Event)
      requires Valid()
      modifies this
      ensures Valid() && fresh(names.Keys - old(names.Keys))
      ensures leader <==> key !in old(registry.events)
      ensures registry == if leader then Register(old(registry), key) else old(registry)
      ensures ev in names && names[ev] == registry.events[key]
      ensures leader ==> fresh(ev) && !ev.isSet
    {
      if key !in events {
        ev := new Event();
        events := events[key := ev];
        names := names[ev := EventId(key, registry.next)];
        registry := Register(registry, key);
        return true, ev;
      }
      return false, events[key];
    }

    /** The first half of `release`, under the lock. */
    method Pop(key: string) returns (ev: Option<Event>)
      requires Valid()
      modifies this
      ensures Valid() && names == old(names)
      ensures registry == Unregister(old(registry), key)
      ensures ev.Some? <==> key in old(registry.events)
      ensures ev.Some? ==> ev.value in names && names[ev.value] == old(registry).events[key]
    {
      ev := if key in events then Some(events[key]) else None;
      events := events - {key};
      registry := Unregister(registry, key);
    }

    /** `release`: pop under the lock, set outside.  Nothing checks that the caller made the event. */
    method Release(key: string)
      requires Valid()
      modifies this, names.Keys
      ensures Valid() && names == old(names)
      ensures registry == if key in old(registry.events)
                          then Fire(Unregister(old(registry), key), old(registry).events[key])
                          else old(registry)
    {
      var ev := Pop(key);
      if ev.Some? {
        ev.value.isSet := true;
        registry := Fire(registry, names[ev.value]);
      }
    }
  }
}
