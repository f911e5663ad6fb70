/** The vote counter (socialpoll/counter/main.go). Vote messages are
    counted into an in-memory map from option to pending count; a timer
    callback periodically sends each pending count to the store, zeroes
    the options whose update succeeded, drops the whole map when every
    update succeeded, and rearms the timer. Both run under one lock, so
    each is one atomic step here. */
module Counter {

  /** `counts[o]` in Go: a missing option (or a nil map) reads as 0. */
  function Count(m: map<string, nat>, o: string): nat
  {
    if o in m then m[o] else 0
  }

  /** The map after `counts[vote]++`. */
  function Counted(m: map<string, nat>, vote: string): (r: map<string, nat>)
    ensures Count(r, vote) == Count(m, vote) + 1
    ensures forall o :: o != vote ==> Count(r, o) == Count(m, o)
    ensures r.Keys == m.Keys + {vote}
  {
    m[vote := Count(m, vote) + 1]
  }

  /** Every store update of the flush succeeds. */
  predicate AllStored(m: map<string, nat>, stores: string -> bool)
  {
    forall o :: o in m ==> stores(o)
  }

  /** The map at the end of the loop over it: each option whose update
      succeeded is set to 0, the others keep their count. */
  function Reconciled(m: map<string, nat>, stores: string -> bool): map<string, nat>
  {
    map o | o in m :: if stores(o) then 0 else m[o]
  }

  /** The pending counts after one timer callback: skipped when the map
      is empty, dropped (nil) when every update succeeded, reconciled
      otherwise. */
  function AfterFlush(m: map<string, nat>, stores: string -> bool): (r: map<string, nat>)
    ensures r.Keys <= m.Keys
    ensures forall o :: o in m && stores(o) ==> Count(r, o) == 0
    ensures forall o :: o in m && !stores(o) ==> o in r && r[o] == m[o]
  {
    if m == map[] then m
    else if AllStored(m, stores) then map[]
    else Reconciled(m, stores)
  }

  /** The store's totals after the flush of `m` (the `$inc` of each
      succeeded update added to the option's total); the options whose
      update failed are recorded with nothing added. */
  function StoredAfter(st: map<string, nat>, m: map<string, nat>, stores: string -> bool): map<string, nat>
  {
    map o | o in st.Keys + m.Keys :: Count(st, o) + (if o in m && stores(o) then m[o] else 0)
  }

  /** What one flush does to each option: a succeeded option ends at 0,
      a failed one keeps its count, and the two sides of the store add up
      to what was there before. */
  lemma FlushOutcome(st: map<string, nat>, m: map<string, nat>, stores: string -> bool, o: string)
    requires o in m
    ensures stores(o) ==> Count(AfterFlush(m, stores), o) == 0
    ensures stores(o) ==> Count(StoredAfter(st, m, stores), o) == Count(st, o) + m[o]
    ensures !stores(o) ==> Count(AfterFlush(m, stores), o) == m[o]
    ensures !stores(o) ==> Count(StoredAfter(st, m, stores), o) == Count(st, o)
  {
    if !stores(o) {
      assert !AllStored(m, stores);
    }
  }

  /** A flush moves counts from the pending map to the store and loses
      none: for every option, stored plus pending is the same before and
      after. */
  lemma FlushConserves(st: map<string, nat>, m: map<string, nat>, stores: string -> bool, o: string)
    ensures Count(StoredAfter(st, m, stores), o) + Count(AfterFlush(m, stores), o)
         == Count(st, o) + Count(m, o)
  {
    if o in m {
      FlushOutcome(st, m, stores, o);
    }
  }

  /** If what was received is what was stored plus what was pending
      before a flush, it still is after it. */
  lemma FlushKeepsBalance(received: map<string, nat>, st: map<string, nat>, m: map<string, nat>, stores: string -> bool,
                          stored: map<string, nat>, counts: map<string, nat>)
    requires forall o :: Count(received, o) == Count(st, o) + Count(m, o)
    requires SameTotals(stored, StoredAfter(st, m, stores))
    requires counts == AfterFlush(m, stores)
    ensures forall o :: Count(received, o) == Count(stored, o) + Count(counts, o)
  {
    forall o
      ensures Count(received, o) == Count(stored, o) + Count(counts, o)
    {
      FlushConserves(st, m, stores, o);
    }
  }

  /** When some update fails, the map keeps every key, the succeeded ones
      at 0, so the next callback does not skip (its `len(counts)` is not
      0) and retries each failed option with its whole count. */
  lemma FailedFlushKeepsKeys(m: map<string, nat>, stores: string -> bool)
    requires m != map[] && !AllStored(m, stores)
    ensures AfterFlush(m, stores).Keys == m.Keys
    ensures |AfterFlush(m, stores)| == |m| > 0
    ensures forall o :: o in m && !stores(o) ==> AfterFlush(m, stores)[o] == m[o]
    ensures forall o :: o in m && stores(o) ==> AfterFlush(m, stores)[o] == 0
  {
  }

  /** A non-empty map is dropped by the flush exactly when every update
      succeeded. */
  lemma FlushDropsIffAllStored(m: map<string, nat>, stores: string -> bool)
    requires m != map[]
    ensures AfterFlush(m, stores) == map[] <==> AllStored(m, stores)
  {
    if !AllStored(m, stores) {
      FailedFlushKeepsKeys(m, stores);
    }
  }

  /** What the counter sees: a vote message, or a timer callback whose
      store updates succeed for the options `stores` accepts. */
  datatype Event = Vote(option: string) | Tick(stores: string -> bool)

  /** The pending counts after one event. */
  function NextPending(m: map<string, nat>, e: Event): map<string, nat>
  {
    match e
    case Vote(o) => Counted(m, o)
    case Tick(stores) => AfterFlush(m, stores)
  }

  /** The store's totals after one event, `m` being the pending counts. */
  function NextStored(st: map<string, nat>, m: map<string, nat>, e: Event): map<string, nat>
  {
    match e
    case Vote(_) => st
    case Tick(stores) => StoredAfter(st, m, stores)
  }

  /** The pending counts after a sequence of events, starting from nil. */
  function Pending(events: seq<Event>): map<string, nat>
    decreases |events|
  {
    if events == [] then map[]
    else NextPending(Pending(events[..|events| - 1]), events[|events| - 1])
  }

  /** The store's totals after a sequence of events, starting from none. */
  function Persisted(events: seq<Event>): map<string, nat>
    decreases |events|
  {
    if events == [] then map[]
    else
      var before := events[..|events| - 1];
      NextStored(Persisted(before), Pending(before), events[|events| - 1])
  }

  /** The number of vote messages for `o`. */
  function Votes(events: seq<Event>, o: string): nat
    decreases |events|
  {
    if events == [] then 0
    else
      var before := events[..|events| - 1];
      match events[|events| - 1]
      case Vote(v) => Votes(before, o) + (if v == o then 1 else 0)
      case Tick(_) => Votes(before, o)
  }

  /** No vote is lost: however votes and callbacks
      interleave and whichever updates fail, the amount the store has
      accepted for an option plus what is still pending is the number of
      votes for it. */
  lemma {:induction false} NoVoteLost(events: seq<Event>, o: string)
    ensures Votes(events, o) == Count(Persisted(events), o) + Count(Pending(events), o)
    decreases |events|
  {
    if events != [] {
      var before := events[..|events| - 1];
      NoVoteLost(before, o);
      match events[|events| - 1]
      case Vote(v) =>
      case Tick(stores) =>
        FlushConserves(Persisted(before), Pending(before), stores, o);
    }
  }

  /** One call of `pollData.UpdateAll`: the option, the `$inc` amount, and
      whether the store accepted it. */
  datatype StoreCall = StoreCall(option: string, amount: nat, ok: bool)

  /** The options a sequence of store calls was made for. */
  function Options(calls: seq<StoreCall>): set<string>
  {
    set i | 0 <= i < |calls| :: calls[i].option
  }

  /** The calls of one flush of `m`: one call per option of `m`, each
      with that option's count as the amount. */
  ghost predicate SendsEach(calls: seq<StoreCall>, m: map<string, nat>, stores: string -> bool)
  {
    && (forall i :: 0 <= i < |calls| ==>
          calls[i].option in m && calls[i].amount == m[calls[i].option] && calls[i].ok == stores(calls[i].option))
    && (forall i, j :: 0 <= i < j < |calls| ==> calls[i].option != calls[j].option)
    && Options(calls) == m.Keys
  }

  /** One more call adds its option. */
  lemma OptionsSnoc(calls: seq<StoreCall>, c: StoreCall)
    ensures Options(calls + [c]) == Options(calls) + {c.option}
  {
    var all := calls + [c];
    assert forall i :: 0 <= i < |calls| ==> all[i] == calls[i];
    assert all[|calls|] == c;
  }

  /** The pending counts part way through the loop: the options no
      longer in `pending` are done. */
  function Partial(m: map<string, nat>, pending: set<string>, stores: string -> bool): map<string, nat>
  {
    map o | o in m :: if o !in pending && stores(o) then 0 else m[o]
  }

  /** Two records of store totals agree on every option (an option
      missing from one reads as 0 there). */
  ghost predicate SameTotals(a: map<string, nat>, b: map<string, nat>)
  {
    forall o :: Count(a, o) == Count(b, o)
  }

  /** Where the loop over `m` stands when the options in `pending` are
      still to be sent: the counts, the store's totals, the `ok` flag and
      the calls made so far. */
  ghost predicate Progress(m: map<string, nat>, st: map<string, nat>, stores: string -> bool, pending: set<string>,
                           counts: map<string, nat>, stored: map<string, nat>, ok: bool, calls: seq<StoreCall>)
  {
    && pending <= m.Keys
    && counts == Partial(m, pending, stores)
    && (forall o :: Count(stored, o) == Count(st, o) + (if o in m && o !in pending && stores(o) then m[o] else 0))
    && (ok <==> forall o :: o in m && o !in pending ==> stores(o))
    && (forall i :: 0 <= i < |calls| ==>
          && calls[i].option in m && calls[i].option !in pending
          && calls[i].amount == m[calls[i].option] && calls[i].ok == stores(calls[i].option))
    && (forall i, j :: 0 <= i < j < |calls| ==> calls[i].option != calls[j].option)
    && Options(calls) == m.Keys - pending
  }

  /** Before the loop nothing has been sent. */
  lemma ProgressStart(m: map<string, nat>, st: map<string, nat>, stores: string -> bool)
    ensures Progress(m, st, stores, m.Keys, m, st, true, [])
  {
    assert Partial(m, m.Keys, stores) == m;
    assert Options([]) == {};
  }

  /** Sending option `x` with its count: zeroed on success, kept on
      failure, `ok` cleared on failure. */
  lemma ProgressStep(m: map<string, nat>, st: map<string, nat>, stores: string -> bool, pending: set<string>,
                     counts: map<string, nat>, stored: map<string, nat>, ok: bool, calls: seq<StoreCall>, x: string)
    requires Progress(m, st, stores, pending, counts, stored, ok, calls)
    requires x in pending
    ensures x in counts && counts[x] == m[x]
    ensures Progress(m, st, stores, pending - {x},
                     if stores(x) then counts[x := 0] else counts,
                     if stores(x) then stored[x := Count(stored, x) + m[x]] else stored,
                     ok && stores(x),
                     calls + [StoreCall(x, m[x], stores(x))])
  {
    var rest := pending - {x};
    assert Partial(m, rest, stores) == if stores(x) then counts[x := 0] else counts;
    OptionsSnoc(calls, StoreCall(x, m[x], stores(x)));
  }

  /** After the loop every option has been sent once. */
  lemma ProgressEnd(m: map<string, nat>, st: map<string, nat>, stores: string -> bool,
                    counts: map<string, nat>, stored: map<string, nat>, ok: bool, calls: seq<StoreCall>)
    requires Progress(m, st, stores, {}, counts, stored, ok, calls)
    ensures counts == Reconciled(m, stores)
    ensures SameTotals(stored, StoredAfter(st, m, stores))
    ensures ok == AllStored(m, stores)
    ensures SendsEach(calls, m, stores)
  {
    assert Partial(m, {}, stores) == Reconciled(m, stores);
  }

  /** Flushing an empty map makes no store call and changes nothing. */
  lemma EmptyFlush(st: map<string, nat>, m: map<string, nat>, stores: string -> bool)
    requires m == map[]
    ensures AfterFlush(m, stores) == m
    ensures SameTotals(st, StoredAfter(st, m, stores))
    ensures SendsEach([], m, stores)
  {
    assert Options([]) == {};
  }

  /** The vote counter's state: the lock-guarded `counts` map and the
      timer. `received` (the votes handled per option) and `stored` (the
      totals the store has accepted) are the model's record; the
      invariant is that no vote is lost: what the store accepted plus
      what is pending is what was received. */
  class Tally {
    var counts: map<string, nat>
    var isNil: bool
    var armed: bool
    ghost var received: map<string, nat>
    ghost var stored: map<string, nat>

    ghost predicate Valid()
      reads this
    {
      && (isNil ==> counts == map[])
      && forall o :: Count(received, o) == Count(stored, o) + Count(counts, o)
    }

    /** `var counts map[string]int` (nil) and `time.AfterFunc`, which arms
        the timer. */
    constructor ()
      ensures Valid() && isNil && counts == map[] && armed
      ensures received == map[] && stored == map[]
    {
      counts := map[];
      isNil := true;
      armed := true;
      received := map[];
      stored := map[];
    }

    /** The message handler: makes the map if it is nil, adds one vote
        for the message body, whatever it is, and reports success. */
    method HandleMessage(body: string) returns (ok: bool)
      requires Valid()
      modifies this
      ensures Valid() && ok && !isNil
      ensures counts == Counted(old(counts), body)
      ensures Count(counts, body) == Count(old(counts), body) + 1
      ensures forall o :: o != body ==> Count(counts, o) == Count(old(counts), o)
      ensures received == Counted(old(received), body)
      ensures stored == old(stored) && armed == old(armed)
    {
      if isNil {
        counts := map[];
        isNil := false;
      }
      var vote := body;
      counts := counts[vote := Count(counts, vote) + 1];
      ok := true;
      received := Counted(received, vote);
    }

    /** The timer callback. An empty map is skipped with no store call.
        Otherwise each option is sent once, in no particular order, with
        its count; a succeeded option is set to 0, a failed one keeps its
        count, and when every update succeeded the map is dropped. The
        timer is rearmed in every case. */
    method OnTimer(stores: string -> bool) returns (calls: seq<StoreCall>)
      requires Valid() && armed
      modifies this
      ensures Valid() && armed
      ensures counts == AfterFlush(old(counts), stores)
      ensures SameTotals(stored, StoredAfter(old(stored), old(counts), stores))
      ensures isNil == if old(counts) == map[] then old(isNil) else AllStored(old(counts), stores)
      ensures SendsEach(calls, old(counts), stores)
      ensures received == old(received)
    {
      ghost var snapshot, st0 := counts, stored;
      // the single-shot timer has fired
      armed := false;
      var next, dropped;
      ghost var nextStored;
      next, nextStored, calls, dropped := Flush(counts, stored, stores);
      counts, stored := next, nextStored;
      if dropped {
        isNil := true;
      }
      // `updater.Reset`
      armed := true;
      FlushKeepsBalance(received, st0, snapshot, stores, stored, counts);
    }
  }

  /** The body of the timer callback on the pending counts `m` (`st` the
      store's totals): an empty map is skipped with no store call;
      otherwise every option is sent, and the map is dropped (`dropped`,
      Go's `counts = nil`) when every update succeeded. */
  method Flush(m: map<string, nat>, ghost st: map<string, nat>, stores: string -> bool)
    returns (counts: map<string, nat>, ghost stored: map<string, nat>, calls: seq<StoreCall>, dropped: bool)
    ensures counts == AfterFlush(m, stores)
    ensures SameTotals(stored, StoredAfter(st, m, stores))
    ensures dropped == (m != map[] && AllStored(m, stores))
    ensures SendsEach(calls, m, stores)
  {
    if m == map[] {
      // no new votes: skip the store
      counts, stored, calls, dropped := m, st, [], false;
      EmptyFlush(st, m, stores);
    } else {
      var ok;
      counts, stored, calls, ok := SendAll(m, st, stores);
      dropped := ok;
      if ok {
        counts := map[];
      }
    }
  }

  /** The loop over `counts` (`m` on entry, `st` the store's totals): one
      store update per option with its count, the option set to 0 when the
      update succeeds; `ok` tells whether all of them did. */
  method SendAll(m: map<string, nat>, ghost st: map<string, nat>, stores: string -> bool)
    returns (counts: map<string, nat>, ghost stored: map<string, nat>, calls: seq<StoreCall>, ok: bool)
    ensures counts == Reconciled(m, stores)
    ensures SameTotals(stored, StoredAfter(st, m, stores))
    ensures ok == AllStored(m, stores)
    ensures SendsEach(calls, m, stores)
  {
    counts, stored := m, st;
    var pending := m.Keys;
    ok := true;
    calls := [];
    ProgressStart(m, st, stores);
    while pending != {}
      invariant Progress(m, st, stores, pending, counts, stored, ok, calls)
      decreases pending
    {
      var option :| option in pending;
      ProgressStep(m, st, stores, pending, counts, stored, ok, calls, option);
      var count := counts[option];
      var success := stores(option);
      calls := calls + [StoreCall(option, count, success)];
      if !success {
        ok := false;
      } else {
        stored := stored[option := Count(stored, option) + count];
        counts := counts[option := 0];
      }
      pending := pending - {option};
    }
    ProgressEnd(m, st, stores, counts, stored, ok, calls);
  }
  /** A failed update is retried with the votes that arrived since: the
      count pending for an option whose update failed grows by each new
      vote for it, and the next callback sends the sum. */
  lemma {:induction false} RetryCarriesForward(events: seq<Event>, o: string, stores: string -> bool, later: seq<Event>)
    requires o in Pending(events) && !stores(o)
    requires forall k :: 0 <= k < |later| ==> later[k].Vote?
    ensures Count(Pending(events + [Tick(stores)] + later), o) == Pending(events)[o] + Votes(later, o)
    decreases |later|
  {
    var e := events + [Tick(stores)];
    if later == [] {
      assert e + later == e;
      PendingSnoc(events, Tick(stores));
      FlushOutcome(map[], Pending(events), stores, o);
    } else {
      var init, last := later[..|later| - 1], later[|later| - 1];
      assert e + later == (e + init) + [last];
      PendingSnoc(e + init, last);
      RetryCarriesForward(events, o, stores, init);
    }
  }

  /** One more event applies one more step. */
  lemma PendingSnoc(events: seq<Event>, e: Event)
    ensures Pending(events + [e]) == NextPending(Pending(events), e)
  {
    assert (events + [e])[..|events|] == events;
  }
}
