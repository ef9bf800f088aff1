/** The admission of heavy work (src/admission.hpp), as atomic steps: each method is one region under the mutex or one
    move of a ticket, so any sequence of calls is an interleaving. */
module Admission {
  import opened Common

  datatype State = State(inUse: nat, waiting: nat, admitted: nat, refused: nat)

  const NEW_STATE := State(0, 0, 0, 0)

  function StateOf(states: map<string, State>, key: string): State {
    if key in states then states[key] else NEW_STATE
  }

  /** A place; without an owner it holds none. */
  class Ticket {
    var owner: Admission?
    var key: string

    constructor (owner: Admission?, key: string)
      ensures this.owner == owner && this.key == key
    {
      this.owner, this.key := owner, key;
    }
  }

  // ---- the counters ----

  /** How many of the holders have a key. */
  ghost function Count<T>(holders: map<T, string>, key: string): nat {
    |set t | t in holders && holders[t] == key|
  }

  lemma Added<T>(holders: map<T, string>, t: T, key: string, k: string)
    requires t !in holders
    ensures Count(holders[t := key], k) == Count(holders, k) + (if k == key then 1 else 0)
  {
    var before := set o | o in holders && holders[o] == k;
    var more := holders[t := key];
    var after := set o | o in more && more[o] == k;
    if k == key {
      assert after == before + {t};
    } else {
      assert after == before;
    }
  }

  lemma Removed<T>(holders: map<T, string>, t: T, k: string)
    requires t in holders
    ensures Count(holders, k) == Count(holders - {t}, k) + (if k == holders[t] then 1 else 0)
  {
    Added(holders - {t}, t, holders[t], k);
    assert (holders - {t})[t := holders[t]] == holders;
  }

  function CallsOf(calls: map<string, nat>, key: string): nat {
    if key in calls then calls[key] else 0
  }

  /** The counters of a key are its live tickets and its waiting calls, and every call is in one of them or refused. */
  ghost predicate AgreesAt(states: map<string, State>, live: map<Ticket, string>, waiters: map<nat, string>,
                           calls: map<string, nat>, key: string)
  {
    var s := StateOf(states, key);
    && s.inUse == Count(live, key)
    && s.waiting == Count(waiters, key)
    && s.admitted + s.refused + s.waiting == CallsOf(calls, key)
  }

  ghost predicate Agree(states: map<string, State>, live: map<Ticket, string>, waiters: map<nat, string>,
                        calls: map<string, nat>) {
    forall key: string :: AgreesAt(states, live, waiters, calls, key)
  }

  lemma Nobody<T>(holders: map<T, string>, key: string)
    requires holders == map[]
    ensures Count(holders, key) == 0
  {
    assert (set t | t in holders && holders[t] == key) == {};
  }

  lemma NobodyAgrees()
    ensures Agree(map[], map[], map[], map[])
  {
    forall key: string ensures AgreesAt(map[], map[], map[], map[], key) {
      Nobody<Ticket>(map[], key);
      Nobody<nat>(map[], key);
    }
  }

  function OneMoreInUse(s: State): State {
    s.(inUse := s.inUse + 1, admitted := s.admitted + 1)
  }

  lemma Admits(states: map<string, State>, live: map<Ticket, string>, waiters: map<nat, string>,
               calls: map<string, nat>, t: Ticket, key: string)
    requires Agree(states, live, waiters, calls) && t !in live
    ensures var s := StateOf(states, key);
            Agree(states[key := OneMoreInUse(s)], live[t := key], waiters, calls[key := CallsOf(calls, key) + 1])
  {
    hide Count;
    var s := StateOf(states, key);
    var after := states[key := OneMoreInUse(s)];
    var tickets, called := live[t := key], calls[key := CallsOf(calls, key) + 1];
    forall k: string ensures AgreesAt(after, tickets, waiters, called, k) {
      assert AgreesAt(states, live, waiters, calls, k);
      Added(live, t, key, k);
    }
  }

  lemma Waits(states: map<string, State>, live: map<Ticket, string>, waiters: map<nat, string>, calls: map<string, nat>,
              id: nat, key: string)
    requires Agree(states, live, waiters, calls) && id !in waiters
    ensures var s := StateOf(states, key);
            Agree(states[key := s.(waiting := s.waiting + 1)], live, waiters[id := key],
                  calls[key := CallsOf(calls, key) + 1])
  {
    hide Count;
    var s := StateOf(states, key);
    var after := states[key := s.(waiting := s.waiting + 1)];
    var waiting, called := waiters[id := key], calls[key := CallsOf(calls, key) + 1];
    forall k: string ensures AgreesAt(after, live, waiting, called, k) {
      assert AgreesAt(states, live, waiters, calls, k);
      Added(waiters, id, key, k);
    }
  }

  lemma SomeoneWaits(states: map<string, State>, live: map<Ticket, string>, waiters: map<nat, string>,
                     calls: map<string, nat>, id: nat)
    requires Agree(states, live, waiters, calls) && id in waiters
    ensures StateOf(states, waiters[id]).waiting > 0
  {
    hide Count;
    Removed(waiters, id, waiters[id]);
    assert AgreesAt(states, live, waiters, calls, waiters[id]);
  }

  lemma StopsWaiting(states: map<string, State>, live: map<Ticket, string>, waiters: map<nat, string>,
                     calls: map<string, nat>, id: nat, t: Option<Ticket>)
    requires Agree(states, live, waiters, calls) && id in waiters && (t.Some? ==> t.value !in live)
    requires StateOf(states, waiters[id]).waiting > 0
    ensures var key := waiters[id];
            var s := StateOf(states, key);
            var left := s.(waiting := s.waiting - 1);
            if t.Some? then Agree(states[key := OneMoreInUse(left)], live[t.value := key], waiters - {id}, calls)
            else Agree(states[key := left.(refused := s.refused + 1)], live, waiters - {id}, calls)
  {
    hide Count;
    var key := waiters[id];
    var s := StateOf(states, key);
    var left := s.(waiting := s.waiting - 1);
    var after := states[key := if t.Some? then OneMoreInUse(left) else left.(refused := s.refused + 1)];
    var tickets := if t.Some? then live[t.value := key] else live;
    forall k: string ensures AgreesAt(after, tickets, waiters - {id}, calls, k) {
      assert AgreesAt(states, live, waiters, calls, k);
      Removed(waiters, id, k);
      if t.Some? {
        Added(live, t.value, key, k);
      }
    }
  }

  /** A live ticket is counted, so the count is not 0 when it ends. */
  lemma Ends(states: map<string, State>, live: map<Ticket, string>, waiters: map<nat, string>,
             calls: map<string, nat>, t: Ticket)
    requires Agree(states, live, waiters, calls) && t in live
    ensures var key := live[t];
            var s := StateOf(states, key);
            key in states && s.inUse > 0 && Agree(states[key := s.(inUse := s.inUse - 1)], live - {t}, waiters, calls)
  {
    hide Count;
    var key := live[t];
    var s := StateOf(states, key);
    Removed(live, t, key);
    assert AgreesAt(states, live, waiters, calls, key);
    var after := states[key := s.(inUse := s.inUse - 1)];
    forall k: string ensures AgreesAt(after, live - {t}, waiters, calls, k) {
      assert AgreesAt(states, live, waiters, calls, k);
      Removed(live, t, k);
    }
  }

  lemma Moves(states: map<string, State>, live: map<Ticket, string>, waiters: map<nat, string>, calls: map<string, nat>,
              from: Ticket, to: Ticket)
    requires Agree(states, live, waiters, calls) && from in live && to !in live
    ensures Agree(states, (live - {from})[to := live[from]], waiters, calls)
  {
    hide Count;
    var moved := (live - {from})[to := live[from]];
    forall k: string ensures AgreesAt(states, moved, waiters, calls, k) {
      assert AgreesAt(states, live, waiters, calls, k);
      Removed(live, from, k);
      Added(live - {from}, to, live[from], k);
    }
  }

  /** `live` holds the live tickets with their keys, `waiters` the waiting calls, `calls` the number of calls. */
  class Admission {
    var states: map<string, State>
    ghost var live: map<Ticket, string>
    ghost var waiters: map<nat, string>
    ghost var calls: map<string, nat>

    ghost predicate Valid()
      reads this, live.Keys
    {
      && (forall t | t in live :: t.owner == this && t.key == live[t])
      && Agree(states, live, waiters, calls)
    }

    constructor ()
      ensures Valid() && live == map[] && waiters == map[] && calls == map[]
    {
      NobodyAgrees();
      states, live, waiters, calls := map[], map[], map[], map[];
    }

    /** The start of acquire: a ticket at once, or a place among the waiting calls. */
    method Enter(key: string, max: nat, ghost id: nat) returns (ticket: Ticket?)
      requires Valid() && id !in waiters
      modifies this
      ensures Valid() && calls == old(calls)[key := old(CallsOf(calls, key)) + 1]
      ensures ticket != null <==> max == 0 || old(StateOf(states, key)).inUse < max
      ensures ticket != null ==> fresh(ticket) && ticket.owner == this && ticket.key == key
                                 && live == old(live)[ticket := key] && waiters == old(waiters)
      ensures ticket == null ==> live == old(live) && waiters == old(waiters)[id := key]
      ensures ticket != null && max > 0 ==> StateOf(states, key).inUse <= max
    {
      hide Agree;
      var state := StateOf(states, key);
      ticket := null;
      if max == 0 || state.inUse < max {
        ticket := new Ticket(this, key);
        Admits(states, live, waiters, calls, ticket, key);
        states := states[key := state.(inUse := state.inUse + 1, admitted := state.admitted + 1)];
        live := live[ticket := key];
      } else {
        Waits(states, live, waiters, calls, id, key);
        states := states[key := state.(waiting := state.waiting + 1)];
        waiters := waiters[id := key];
      }
      calls := calls[key := CallsOf(calls, key) + 1];
    }

    /** A waiting call wakes: it gets a ticket, it is refused when it may wait no more, or it waits on. */
    method Wake(max: nat, giveUp: bool, key: string, ghost id: nat) returns (ticket: Ticket?, done: bool)
      requires Valid() && id in waiters && waiters[id] == key
      modifies this
      ensures Valid() && calls == old(calls)
      ensures ticket != null <==> old(StateOf(states, key)).inUse < max
      ensures done <==> ticket != null || giveUp
      ensures ticket != null ==>
                fresh(ticket) && ticket.owner == this && ticket.key == key && live == old(live)[ticket := key]
      ensures ticket == null ==> live == old(live)
      ensures waiters == if done then old(waiters) - {id} else old(waiters)
      ensures ticket != null ==> StateOf(states, key).inUse <= max
      ensures done && ticket == null ==> StateOf(states, key).refused == old(StateOf(states, key)).refused + 1
    {
      hide Agree;
      SomeoneWaits(states, live, waiters, calls, id);
      var state := StateOf(states, key);
      ticket, done := null, false;
      if state.inUse < max {
        done := true;
        ticket := new Ticket(this, key);
        StopsWaiting(states, live, waiters, calls, id, Some(ticket));
        states := states[key := OneMoreInUse(state.(waiting := state.waiting - 1))];
        live, waiters := live[ticket := key], waiters - {id};
      } else if giveUp {
        done := true;
        StopsWaiting(states, live, waiters, calls, id, None);
        states := states[key := state.(waiting := state.waiting - 1, refused := state.refused + 1)];
        waiters := waiters - {id};
      }
    }

    /** The end of a ticket (its destructor, or its release in a move). The count of its key is never 0 here. */
    method GiveBack(ticket: Ticket)
      requires Valid() && (ticket.owner == this <==> ticket in live)
      modifies this, ticket`owner
      ensures Valid() && ticket.owner == (if old(ticket.owner) == this then null else old(ticket.owner))
      ensures live == old(live) - {ticket} && waiters == old(waiters) && calls == old(calls)
      ensures old(ticket.owner) == this ==>
                && old(StateOf(states, ticket.key)).inUse > 0
                && StateOf(states, ticket.key).inUse == old(StateOf(states, ticket.key)).inUse - 1
    {
      hide Agree;
      if ticket.owner == this {
        Ends(states, live, waiters, calls, ticket);
        var state := StateOf(states, ticket.key);
        if ticket.key in states && state.inUse > 0 {
          states := states[ticket.key := state.(inUse := state.inUse - 1)];
        }
        live := live - {ticket};
        ticket.owner := null;
      } else {
        assert live - {ticket} == live;
      }
    }

    /** The move constructor: the place goes to the new ticket. */
    method MoveFrom(other: Ticket) returns (ticket: Ticket)
      requires Valid() && (other.owner == this <==> other in live)
      modifies `live, other`owner
      ensures Valid() && fresh(ticket) && other.owner == null
      ensures ticket.owner == old(other.owner) && ticket.key == other.key
      ensures live == if old(other.owner) == this then (old(live) - {other})[ticket := other.key] else old(live)
      ensures states == old(states) && waiters == old(waiters) && calls == old(calls)
    {
      hide Agree;
      ticket := new Ticket(other.owner, other.key);
      if other.owner == this {
        Moves(states, live, waiters, calls, other, ticket);
        live := (live - {other})[ticket := other.key];
      }
      other.owner := null;
    }

    /** A ticket without a place takes the place of another. */
    method TakeOver(target: Ticket, other: Ticket)
      requires Valid() && target != other && target !in live && (other.owner == this <==> other in live)
      modifies `live, target, other`owner
      ensures Valid() && other.owner == null
      ensures target.owner == old(other.owner) && target.key == other.key
      ensures live == if old(other.owner) == this then (old(live) - {other})[target := other.key] else old(live)
      ensures states == old(states) && waiters == old(waiters) && calls == old(calls)
    {
      hide Agree;
      target.owner, target.key := other.owner, other.key;
      if other.owner == this {
        Moves(states, live, waiters, calls, other, target);
        live := (live - {other})[target := other.key];
      }
      other.owner := null;
    }

    /** The move assignment between two tickets: the old place of the target is given back first. */
    method MoveAssign(target: Ticket, other: Ticket)
      requires Valid() && target != other
      requires (target.owner == this <==> target in live) && (other.owner == this <==> other in live)
      requires target.owner == this || target.owner == null
      modifies this, target, other`owner
      ensures Valid() && other.owner == null
      ensures target.owner == old(other.owner) && target.key == other.key
      ensures live ==
                if old(other.owner) == this then (old(live) - {target} - {other})[target := other.key]
                else old(live) - {target}
      ensures waiters == old(waiters) && calls == old(calls)
    {
      hide Agree;
      GiveBack(target);
      TakeOver(target, other);
    }
  }

  /** What every reachable state says of a key: its places are its live tickets, and every call was admitted, refused or
      waits. */
  lemma CountersOf(a: Admission, key: string)
    requires a.Valid()
    ensures var s := StateOf(a.states, key);
            && s.inUse == Count(a.live, key)
            && s.admitted + s.refused + s.waiting == CallsOf(a.calls, key)
            && (s.inUse == 0 <==> forall t | t in a.live :: t.key != key)
  {
    assert AgreesAt(a.states, a.live, a.waiters, a.calls, key);
    var tickets := set t | t in a.live && a.live[t] == key;
    forall t | t in a.live && t.key == key ensures tickets != {} {
      assert t in tickets;
    }
    if tickets != {} {
      var t :| t in tickets;
      assert t in a.live && t.key == key;
    }
  }
}
