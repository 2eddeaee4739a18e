/**
 When eviction is exact: the decided list is popped in the order decisions were
 made, so stamps behind the clock can leave an expired decision standing.
 */
module ShardEviction {
  import opened Types
  import opened DecidedSet
  import opened ShardModel
  import opened ShardRun
  import opened ShardDecisions

  /** The decided list before event `m`. */
  ghost function DecAt(window: int, events: seq<Event>, m: nat): (dec: seq<Entry>)
    requires m <= |events|
  {
    Run(window, events[..m]).w.dec
  }

  ghost function EntryOf(e: Event, window: int): (entry: Entry)
    requires e.KeepVerdict?
  {
    Entry(e.id, DeadlineOf(e, window))
  }

  lemma NothingDecided(window: int, events: seq<Event>)
    ensures DecAt(window, events, 0) == []
  {
    assert events[..0] == [];
  }

  /** How one event changes the list. */
  lemma DecNext(window: int, events: seq<Event>, m: nat)
    requires m < |events|
    ensures Fresh(window, events, m) ==> DecAt(window, events, m + 1) == DecAt(window, events, m) + [EntryOf(events[m], window)]
    ensures !Fresh(window, events, m) && events[m].Ticked? ==>
      DecAt(window, events, m + 1) == DecAt(window, events, m)[ExpiredPrefix(DecAt(window, events, m), events[m].now)..]
    ensures !Fresh(window, events, m) && !events[m].Ticked? ==> DecAt(window, events, m + 1) == DecAt(window, events, m)
  {
    hide Run, Step, Holds;
    RunPrefix(window, events, m);
    StepDecisions(Run(window, events[..m]), window, events[m]);
  }

  // ------------------------------------------------- the keeps behind the list

  /** Keep `k` made this entry, and no keep since has decided its trace anew. */
  ghost predicate MadeBy(window: int, events: seq<Event>, m: nat, entry: Entry, k: nat) {
    && k < m <= |events| && Fresh(window, events, k)
    && entry == EntryOf(events[k], window)
    && (forall j :: k < j < m && Fresh(window, events, j) ==> events[j].id != events[k].id)
  }

  ghost predicate AllMade(window: int, events: seq<Event>, m: nat, dec: seq<Entry>, ks: seq<nat>) {
    |ks| == |dec| && forall p :: 0 <= p < |ks| ==> MadeBy(window, events, m, dec[p], ks[p])
  }

  /** A keep that decides a trace not on the list takes no entry over. */
  lemma MadeStays(window: int, events: seq<Event>, m: nat, ks: seq<nat>)
    requires m < |events| && AllMade(window, events, m, DecAt(window, events, m), ks)
    ensures AllMade(window, events, m + 1, DecAt(window, events, m), ks)
  {
    hide Run;
    var dec := DecAt(window, events, m);
    forall p | 0 <= p < |ks|
      ensures MadeBy(window, events, m + 1, dec[p], ks[p])
    {
      assert MadeBy(window, events, m, dec[p], ks[p]);
      if Fresh(window, events, m) {
        assert dec[p].id != events[m].id;
      }
    }
  }

  lemma MadeSuffix(window: int, events: seq<Event>, m: nat, dec: seq<Entry>, ks: seq<nat>, n: nat)
    requires AllMade(window, events, m, dec, ks) && n <= |dec|
    ensures AllMade(window, events, m, dec[n..], ks[n..])
  {
    hide MadeBy;
  }

  lemma MadeMore(window: int, events: seq<Event>, m: nat, dec: seq<Entry>, ks: seq<nat>)
    requires Fresh(window, events, m) && AllMade(window, events, m + 1, dec, ks)
    ensures AllMade(window, events, m + 1, dec + [EntryOf(events[m], window)], ks + [m])
  {
    hide MadeBy, Run, Holds;
    FreshMakes(window, events, m);
  }

  lemma FreshMakes(window: int, events: seq<Event>, m: nat)
    requires Fresh(window, events, m)
    ensures MadeBy(window, events, m + 1, EntryOf(events[m], window), m)
  {
  }

  /** Every entry on the list was made by a keep of the run. */
  lemma {:induction false} Makers(window: int, events: seq<Event>, m: nat) returns (ks: seq<nat>)
    requires m <= |events|
    ensures AllMade(window, events, m, DecAt(window, events, m), ks)
  {
    hide DecAt, MadeBy, Fresh;
    if m == 0 {
      NothingDecided(window, events);
      ks := [];
    } else {
      var dec := DecAt(window, events, m - 1);
      ks := Makers(window, events, m - 1);
      MadeStays(window, events, m - 1, ks);
      DecNext(window, events, m - 1);
      hide AllMade;
      if Fresh(window, events, m - 1) {
        MadeMore(window, events, m - 1, dec, ks);
        ks := ks + [m - 1];
      } else if events[m - 1].Ticked? {
        var n := ExpiredPrefix(dec, events[m - 1].now);
        MadeLength(window, events, m, dec, ks);
        MadeSuffix(window, events, m, dec, ks, n);
        ks := ks[n..];
      }
    }
  }

  lemma MadeLength(window: int, events: seq<Event>, m: nat, dec: seq<Entry>, ks: seq<nat>)
    requires AllMade(window, events, m, dec, ks)
    ensures |ks| == |dec|
  {
  }

  // -------------------------------------------------------- standing decisions

  /** Keep `i` decided its trace, and that decision still stands before event `j`. */
  ghost predicate Standing(window: int, events: seq<Event>, i: nat, j: nat) {
    && i < j <= |events| && Fresh(window, events, i)
    && Holds(DecAt(window, events, j), events[i].id)
    && (forall k :: i < k < j && Fresh(window, events, k) ==> events[k].id != events[i].id)
  }

  /** If keep `j` decides while `i`'s decision stands, its clamped stamp is no older. */
  ghost predicate InOrder(window: int, events: seq<Event>, i: nat, j: nat) {
    Standing(window, events, i, j) && Fresh(window, events, j) ==>
      Clamp(events[i].at, events[i].now) <= Clamp(events[j].at, events[j].now)
  }

  ghost predicate StampsInOrder(window: int, events: seq<Event>) {
    forall i: nat, j: nat :: InOrder(window, events, i, j)
  }

  /** Before event `m`, an eviction at any instant would leave no expired decision. */
  ghost predicate ExactAt(window: int, events: seq<Event>, m: nat)
    requires m <= |events|
  {
    forall now :: EvictsAllExpired(DecAt(window, events, m), now)
  }

  ghost predicate EvictionExact(window: int, events: seq<Event>) {
    forall m: nat :: m <= |events| ==> ExactAt(window, events, m)
  }

  /** A standing decision's entry is on the list. */
  lemma StandingListed(window: int, events: seq<Event>, i: nat, j: nat)
    requires Standing(window, events, i, j)
    ensures EntryOf(events[i], window) in DecAt(window, events, j)
  {
    hide DecAt;
    var dec := DecAt(window, events, j);
    var ks := Makers(window, events, j);
    var p :| 0 <= p < |dec| && dec[p].id == events[i].id;
    assert MadeBy(window, events, j, dec[p], ks[p]);
    assert ks[p] == i;
  }

  /** An entry on the list is a standing decision. */
  lemma ListedStanding(window: int, events: seq<Event>, j: nat, p: nat) returns (i: nat)
    requires j <= |events| && p < |DecAt(window, events, j)|
    ensures Standing(window, events, i, j)
    ensures DecAt(window, events, j)[p] == EntryOf(events[i], window)
  {
    hide DecAt;
    var dec := DecAt(window, events, j);
    var ks := Makers(window, events, j);
    i := ks[p];
    assert MadeBy(window, events, j, dec[p], i);
    assert dec[p].id == events[i].id;
  }

  lemma SortedMore(dec: seq<Entry>, entry: Entry)
    requires DeadlinesSorted(dec) && forall p :: 0 <= p < |dec| ==> dec[p].deadline <= entry.deadline
    ensures DeadlinesSorted(dec + [entry])
  {
  }

  lemma SortedSuffix(dec: seq<Entry>, n: nat)
    requires DeadlinesSorted(dec) && n <= |dec|
    ensures DeadlinesSorted(dec[n..])
  {
  }

  lemma OlderDeadline(window: int, events: seq<Event>, j: nat, p: nat)
    requires StampsInOrder(window, events) && Fresh(window, events, j) && p < |DecAt(window, events, j)|
    ensures DecAt(window, events, j)[p].deadline <= EntryOf(events[j], window).deadline
  {
    hide DecAt;
    var i := ListedStanding(window, events, j, p);
    assert InOrder(window, events, i, j);
  }

  lemma {:induction false} InOrderSorted(window: int, events: seq<Event>, m: nat)
    requires StampsInOrder(window, events) && m <= |events|
    ensures DeadlinesSorted(DecAt(window, events, m))
  {
    hide DecAt, Run, Holds, StampsInOrder;
    if m == 0 {
      NothingDecided(window, events);
    } else {
      hide DeadlinesSorted;
      var dec := DecAt(window, events, m - 1);
      InOrderSorted(window, events, m - 1);
      DecNext(window, events, m - 1);
      if Fresh(window, events, m - 1) {
        forall p | 0 <= p < |dec|
          ensures dec[p].deadline <= EntryOf(events[m - 1], window).deadline
        {
          OlderDeadline(window, events, m - 1, p);
        }
        SortedMore(dec, EntryOf(events[m - 1], window));
      } else if events[m - 1].Ticked? {
        SortedSuffix(dec, ExpiredPrefix(dec, events[m - 1].now));
      }
    }
  }

  lemma LastIsLatest(dec: seq<Entry>, entry: Entry, last: Entry)
    requires entry in dec && DeadlinesSorted(dec + [last])
    ensures entry.deadline <= last.deadline
  {
    var p :| 0 <= p < |dec| && dec[p] == entry;
    assert (dec + [last])[p] == entry && (dec + [last])[|dec|] == last;
  }

  lemma ExactInOrder(window: int, events: seq<Event>, i: nat, j: nat)
    requires EvictionExact(window, events)
    ensures InOrder(window, events, i, j)
  {
    hide DecAt, DeadlinesSorted;
    if Standing(window, events, i, j) && Fresh(window, events, j) {
      StandingListed(window, events, i, j);
      DecNext(window, events, j);
      assert ExactAt(window, events, j + 1);
      EvictionExactIffSorted(DecAt(window, events, j + 1));
      LastIsLatest(DecAt(window, events, j), EntryOf(events[i], window), EntryOf(events[j], window));
    }
  }

  /**
   Eviction removes exactly the expired decisions, at every moment of the run and
   every instant, if and only if the clamped stamps of deciding keeps arrive in
   order, looking back over the decisions that still stand.
   */
  lemma EvictionExactIffInOrder(window: int, events: seq<Event>)
    ensures EvictionExact(window, events) <==> StampsInOrder(window, events)
  {
    hide DecAt, InOrder;
    if StampsInOrder(window, events) {
      forall m: nat | m <= |events|
        ensures ExactAt(window, events, m)
      {
        InOrderSorted(window, events, m);
        EvictionExactIffSorted(DecAt(window, events, m));
      }
    }
    if EvictionExact(window, events) {
      forall i: nat, j: nat
        ensures InOrder(window, events, i, j)
      {
        ExactInOrder(window, events, i, j);
      }
    }
  }

  // ---------------------------------------------------------------- a witness

  const ROOM := Attempt(false, 0, {}, true, 10)
  const FIRST := KeepVerdict(1, 1, Bus, 10, 10, ROOM)
  const STALE := KeepVerdict(2, 1, Bus, 0, 10, ROOM)
  const TICK := Ticked(15, {}, (_: nat) => ROOM)

  lemma RunSnoc(window: int, events: seq<Event>, e: Event)
    ensures Run(window, events + [e]) == Step(Run(window, events), window, e)
  {
    assert (events + [e])[..|events|] == events;
  }

  /** Two keeps read at clock 10, the second stamped 0, then a tick at 15: the second's decision is expired and stays. */
  lemma StaleStampOverstays()
    ensures Run(10, [FIRST] + [STALE] + [TICK]).w.dec == [Entry(1, 20), Entry(2, 10)]
    ensures !EvictsAllExpired(Run(10, [FIRST] + [STALE] + [TICK]).w.dec, TICK.now)
  {
    hide Step;
    assert [] + [FIRST] == [FIRST];
    RunSnoc(10, [], FIRST);
    RunSnoc(10, [FIRST], STALE);
    RunSnoc(10, [FIRST] + [STALE], TICK);
    hide Run;
    RunOfNothing(10);
    StepDecisions(INITIAL, 10, FIRST);
    StepDecisions(Run(10, [FIRST]), 10, STALE);
    var dec := Run(10, [FIRST] + [STALE]).w.dec;
    assert dec == [Entry(1, 20), Entry(2, 10)];
    StepDecisions(Run(10, [FIRST] + [STALE]), 10, TICK);
    assert dec[1].deadline == 10;
  }

  lemma RunOfNothing(window: int)
    ensures Run(window, []) == INITIAL && INITIAL.w.dec == []
  {
  }
}
