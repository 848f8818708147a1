/** What `call_service_listener` (custom_components/ica_shopping/__init__.py:107-170) does
    to the state it shares with the other handlers, as functions on that state: the
    anti-echo ledger, the keys of the immediate-removal tasks waiting to run, and the
    debounce slot with its log of timer operations. */
module Listening {
  import opened Common
  import opened Text
  import opened Debounce
  import opened Classifier

  /** The part of the shared state the listener changes. */
  datatype ListenerState = ListenerState(
    adds: set<string>,
    removes: set<string>,
    tasks: seq<string>,
    timers: seq<TimerOp>,
    pending: Option<Handle>,
    next: Handle)

  /** Every key in the ledger and in the waiting tasks is normalised. */
  ghost predicate LedgerNormal(adds: set<string>, removes: set<string>, tasks: seq<string>) {
    && (forall k :: k in adds ==> IsKey(k))
    && (forall k :: k in removes ==> IsKey(k))
    && (forall i :: 0 <= i < |tasks| ==> IsKey(tasks[i]))
  }

  /** The ledger holds only normalised keys and at most one timer, the slot's, is live. */
  ghost predicate Invariant(s: ListenerState) {
    SlotInvariant(s.timers, s.pending, s.next) && LedgerNormal(s.adds, s.removes, s.tasks)
  }

  /** `n` rearms of the slot. */
  function Rearmed(s: ListenerState, n: nat): ListenerState {
    s.(timers := s.timers + Rearms(s.pending, s.next, n),
       pending := SlotAfter(s.pending, s.next, n),
       next := s.next + n)
  }

  /** Lines 113-141: a completed update records its key as removed, spawns the immediate
      removal for it and rearms; any other event changes nothing. */
  function AfterCompletion(s: ListenerState, ev: ServiceEvent): ListenerState {
    var k := CompletionKey(ev);
    Rearmed(s.(removes := s.removes + KeySet(k),
               tasks := s.tasks + (if k.Some? then [k.value] else [])),
            Count(k))
  }

  /** Lines 143-170: an event on the Keep entity with a non-empty item records the key for
      `add_item` / `remove_item` and rearms; any other event changes nothing. */
  function AfterTracked(s: ListenerState, ev: ServiceEvent, keepEntity: Option<string>): ListenerState {
    var k := TrackedKey(ev, keepEntity);
    Rearmed(s.(adds := s.adds + (if ev.service == TodoAddItem then KeySet(k) else {}),
               removes := s.removes + (if ev.service == TodoRemoveItem then KeySet(k) else {})),
            Count(k))
  }

  /** The reaction `Classify` computes for the event, applied to the state. */
  function AfterEvent(s: ListenerState, ev: ServiceEvent, keepEntity: Option<string>): ListenerState {
    var r := Classify(ev, keepEntity);
    Rearmed(s.(adds := s.adds + r.adds,
               removes := s.removes + r.removes,
               tasks := s.tasks + (if r.direct.Some? then [r.direct.value] else [])),
            r.arms)
  }

  /** The two parts of the listener, run in the source's order, do what `Classify` says. */
  lemma ListenerComposes(s: ListenerState, ev: ServiceEvent, keepEntity: Option<string>)
    ensures AfterTracked(AfterCompletion(s, ev), ev, keepEntity) == AfterEvent(s, ev, keepEntity)
  {
    RearmsCompose(s.timers, s.pending, s.next, Count(CompletionKey(ev)), Count(TrackedKey(ev, keepEntity)));
  }

  /** Any event keeps the invariant: keys stay normalised, and however often the slot is
      rearmed exactly the timer left in it is live. */
  lemma ListenerKeepsInvariant(s: ListenerState, ev: ServiceEvent, keepEntity: Option<string>)
    requires Invariant(s)
    ensures Invariant(AfterEvent(s, ev, keepEntity))
  {
    var r := Classify(ev, keepEntity);
    RearmsKeepInvariant(s.timers, s.pending, s.next, r.arms);
    ReactionKeepsKeysNormal(s, r, ev, keepEntity);
  }

  /** The keys an event records are normalised. */
  lemma ReactionKeepsKeysNormal(s: ListenerState, r: Reaction, ev: ServiceEvent, keepEntity: Option<string>)
    requires LedgerNormal(s.adds, s.removes, s.tasks) && r == Classify(ev, keepEntity)
    ensures LedgerNormal(s.adds + r.adds, s.removes + r.removes,
                         s.tasks + (if r.direct.Some? then [r.direct.value] else []))
  {
    ClassifyReaction(ev, keepEntity);
    var t := s.tasks + (if r.direct.Some? then [r.direct.value] else []);
    forall i | 0 <= i < |t| ensures IsKey(t[i]) {
      if i >= |s.tasks| {
        assert t[i] == r.direct.value;
      }
    }
  }
}
