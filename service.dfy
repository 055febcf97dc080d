/** src/services/mvg.service.ts: the caching service `MvgService`. The
    awaited `_backgroundRefresh` is split at its `await`: `BeginRefresh` is
    the synchronous part up to the request, `CompleteRefresh` is what runs
    when the response (or the thrown value) arrives. Callbacks are ids. */
module Service {
  import opened Types
  import opened Seqs
  import Mvg

  type SubscriberId = nat

  /** A JavaScript `Error` object. */
  datatype ErrorValue = ErrorValue(name: string, message: string)

  /** What a failed request threw: an `Error` instance, or any other value. */
  datatype Thrown = ThrownError(err: ErrorValue) | ThrownOther

  /** How the request of one refresh ends. */
  datatype FetchOutcome = Responded(data: seq<RawEntry>) | Failed(thrown: Thrown)

  /** What a subscriber callback may do to the bus while it is called. */
  datatype BusAction = Subscribe(id: SubscriberId) | Unsubscribe(id: SubscriberId)

  /** `getDepartures` returns either the list or the stored error. */
  datatype DeparturesOrError = Departures(list: seq<Departure>) | Error(err: ErrorValue)

  const LufthansaLabel := "LUFTHANSA EXPRESS BUS"

  /** Rewrites the one label that is too long for a badge. */
  function FilterLine(line: string): (r: string)
    ensures line == LufthansaLabel ==> r == "LH"
    ensures line != LufthansaLabel ==> r == line
  {
    if line == LufthansaLabel then "LH" else line
  }

  /** Applying the rewrite twice is applying it once. */
  lemma FilterLineIdempotent(line: string)
    ensures FilterLine(FilterLine(line)) == FilterLine(line)
  {
  }

  /** The departure one feed entry yields in the service. */
  function ServiceDeparture(e: RawEntry): Departure {
    Departure(LineDest(FilterLine(e.lineLabel), e.destination), e.realtimeDepartureTime)
  }

  /** Not cancelled and at least 10 s ahead; the service applies no filter. */
  predicate Upcoming(e: RawEntry, now: int) {
    !e.cancelled && e.realtimeDepartureTime >= now + Mvg.GuardMs
  }

  /** The departures of the upcoming entries, in feed order. */
  function RefreshCandidates(es: seq<RawEntry>, now: int): seq<Departure>
    decreases |es|
  {
    if es == [] then []
    else RefreshCandidates(DropLast(es), now) +
         (if Upcoming(Last(es), now) then [ServiceDeparture(Last(es))] else [])
  }

  lemma {:induction false} RefreshCandidatesProvenance(es: seq<RawEntry>, now: int)
    ensures forall d :: d in RefreshCandidates(es, now) <==>
              exists e :: e in es && Upcoming(e, now) && ServiceDeparture(e) == d
    decreases |es|
  {
    if es != [] {
      RefreshCandidatesProvenance(DropLast(es), now);
      assert es == DropLast(es) + [Last(es)];
    }
  }

  /** What a successful refresh stores: no repeated departure, each one from
      an upcoming entry with its label rewritten, every upcoming entry
      represented, feed order kept. */
  lemma RefreshResultProperties(es: seq<RawEntry>, now: int)
    ensures var r := Distinct(RefreshCandidates(es, now));
      && NoDuplicates(r)
      && IsSubsequence(r, RefreshCandidates(es, now))
      && forall d :: d in r <==> exists e :: e in es && Upcoming(e, now) && ServiceDeparture(e) == d
  {
    DistinctProperties(RefreshCandidates(es, now));
    RefreshCandidatesProvenance(es, now);
  }

  /** `subscribers.filter(sub => sub !== callback)`. */
  function Without(subs: seq<SubscriberId>, callback: SubscriberId): seq<SubscriberId>
    decreases |subs|
  {
    if subs == [] then []
    else Without(DropLast(subs), callback) + (if Last(subs) == callback then [] else [Last(subs)])
  }

  lemma {:induction false} WithoutDropsCallback(subs: seq<SubscriberId>, callback: SubscriberId)
    ensures callback !in Without(subs, callback)
    decreases |subs|
  {
    if subs != [] {
      WithoutDropsCallback(DropLast(subs), callback);
    }
  }

  lemma {:induction false} WithoutKeepsCounts(subs: seq<SubscriberId>, callback: SubscriberId, x: SubscriberId)
    requires x != callback
    ensures multiset(Without(subs, callback))[x] == multiset(subs)[x]
    decreases |subs|
  {
    if subs != [] {
      var p := Without(DropLast(subs), callback);
      WithoutKeepsCounts(DropLast(subs), callback, x);
      assert subs == DropLast(subs) + [Last(subs)];
      assert multiset(subs) == multiset(DropLast(subs)) + multiset{Last(subs)};
      if Last(subs) == callback {
        assert Without(subs, callback) == p + [];
      } else {
        assert multiset(Without(subs, callback)) == multiset(p) + multiset{Last(subs)};
      }
    }
  }

  lemma {:induction false} WithoutSubsequence(subs: seq<SubscriberId>, callback: SubscriberId)
    ensures IsSubsequence(Without(subs, callback), subs)
    decreases |subs|
  {
    if subs != [] {
      var p := Without(DropLast(subs), callback);
      WithoutSubsequence(DropLast(subs), callback);
      assert subs == DropLast(subs) + [Last(subs)];
      if Last(subs) == callback {
        assert p + [] == p;
        SubsequenceSkip(p, DropLast(subs), Last(subs));
      } else {
        SubsequenceTake(p, DropLast(subs), Last(subs));
      }
    }
  }

  /** Unsubscribing drops every registration of the callback, keeps every
      other one, and keeps their order. */
  lemma WithoutProperties(subs: seq<SubscriberId>, callback: SubscriberId)
    ensures callback !in Without(subs, callback)
    ensures forall x :: x != callback ==> multiset(Without(subs, callback))[x] == multiset(subs)[x]
    ensures IsSubsequence(Without(subs, callback), subs)
  {
    WithoutDropsCallback(subs, callback);
    forall x | x != callback
      ensures multiset(Without(subs, callback))[x] == multiset(subs)[x]
    {
      WithoutKeepsCounts(subs, callback, x);
    }
    WithoutSubsequence(subs, callback);
  }

  /** The bus after the actions, in order. */
  function ApplyActions(subs: seq<SubscriberId>, actions: seq<BusAction>): seq<SubscriberId>
    decreases |actions|
  {
    if actions == [] then subs
    else
      var s := ApplyActions(subs, DropLast(actions));
      match Last(actions)
      case Subscribe(id) => s + [id]
      case Unsubscribe(id) => Without(s, id)
  }

  /** The actions the callbacks `called` perform, in call order. */
  function Reactions(called: seq<SubscriberId>, reactions: map<SubscriberId, seq<BusAction>>): seq<BusAction>
    decreases |called|
  {
    if called == [] then []
    else Reactions(DropLast(called), reactions) +
         (if Last(called) in reactions then reactions[Last(called)] else [])
  }

  /** A departure survives the view filter of `getDepartures`: no exclude
      filter matches it and, if there are include filters, one matches. */
  predicate Visible(d: Departure, config: Config) {
    !Mvg.AnyMatch(d.linedest, config.excludeFilters) &&
    (|config.includeFilters| != 0 ==> Mvg.AnyMatch(d.linedest, config.includeFilters))
  }

  function ViewFilter(ds: seq<Departure>, config: Config): seq<Departure>
    decreases |ds|
  {
    if ds == [] then []
    else ViewFilter(DropLast(ds), config) + (if Visible(Last(ds), config) then [Last(ds)] else [])
  }

  lemma {:induction false} ViewFilterProperties(ds: seq<Departure>, config: Config)
    ensures forall d :: d in ViewFilter(ds, config) <==> d in ds && Visible(d, config)
    ensures IsSubsequence(ViewFilter(ds, config), ds)
    ensures NoDuplicates(ds) ==> NoDuplicates(ViewFilter(ds, config))
    decreases |ds|
  {
    if ds == [] {
    } else {
      var p := ViewFilter(DropLast(ds), config);
      ViewFilterProperties(DropLast(ds), config);
      assert ds == DropLast(ds) + [Last(ds)];
      if Visible(Last(ds), config) {
        if NoDuplicates(ds) {
          assert Last(ds) !in DropLast(ds);
        }
        SubsequenceTake(p, DropLast(ds), Last(ds));
      } else {
        assert p + [] == p;
        SubsequenceSkip(p, DropLast(ds), Last(ds));
      }
    }
  }

  /** Exclude wins: a departure some exclude filter matches is hidden
      whatever the include filters say. */
  lemma ExcludeWins(d: Departure, config: Config, f: LineDest)
    requires f in config.excludeFilters && Mvg.FilterTestDep(d.linedest, f)
    ensures !Visible(d, config)
  {
  }

  class MvgService {
    var stationId: Option<string>
    var departures: seq<Departure>
    var error: Option<ErrorValue>
    var lastFullRefresh: Option<int>
    var isFetching: bool
    var subscribers: seq<SubscriberId>

    /** While a request is in flight the cache is empty: it was reset when
        the request began, and only the completion appends to it. The cache
        never holds a departure twice, as every refresh deduplicates. */
    ghost predicate Valid()
      reads this
    {
      && (isFetching ==> departures == [])
      && NoDuplicates(departures)
    }

    constructor ()
      ensures Valid()
      ensures stationId == None && departures == [] && error == None
      ensures lastFullRefresh == None && !isFetching && subscribers == []
    {
      stationId := None;
      departures := [];
      error := None;
      lastFullRefresh := None;
      isFetching := false;
      subscribers := [];
    }

    /** The guard `!this.stationId || this.isFetching` fails: a station id
        that is neither null nor empty, and no request in flight. */
    predicate CanRefresh()
      reads this
    {
      stationId.Some? && stationId.value != "" && !isFetching
    }

    /** `subscribe(callback)`. */
    method Subscribe(callback: SubscriberId)
      modifies this`subscribers
      ensures subscribers == old(subscribers) + [callback]
    {
      subscribers := subscribers + [callback];
    }

    /** The function `subscribe` returns. */
    method Unsubscribe(callback: SubscriberId)
      modifies this`subscribers
      ensures subscribers == Without(old(subscribers), callback)
    {
      subscribers := Without(subscribers, callback);
    }

    /** `_notify`: calls every callback registered when it begins, in order;
        `reactions` says what each callback does to the bus meanwhile. */
    method Notify(reactions: map<SubscriberId, seq<BusAction>>) returns (called: seq<SubscriberId>)
      modifies this`subscribers
      ensures called == old(subscribers)
      ensures subscribers == ApplyActions(old(subscribers), Reactions(called, reactions))
    {
      var snapshot := subscribers;
      called := [];
      for i := 0 to |snapshot|
        invariant called == snapshot[..i]
        invariant subscribers == ApplyActions(snapshot, Reactions(called, reactions))
      {
        var callback := snapshot[i];
        ghost var before := Reactions(called, reactions);
        called := called + [callback];
        var actions := if callback in reactions then reactions[callback] else [];
        assert Reactions(called, reactions) == before + actions by {
          assert DropLast(called) == snapshot[..i];
        }
        assert before + actions[..0] == before;
        for j := 0 to |actions|
          invariant subscribers == ApplyActions(snapshot, before + actions[..j])
        {
          assert DropLast(before + actions[..j + 1]) == before + actions[..j];
          match actions[j] {
            case Subscribe(id) => Subscribe(id);
            case Unsubscribe(id) => Unsubscribe(id);
          }
        }
        assert actions[..|actions|] == actions;
      }
      assert snapshot[..|snapshot|] == snapshot;
    }

    /** `initialize(stationId)`: nothing for the current id; otherwise switch,
        empty the cache and start a refresh. `started` says whether the
        refresh got past its guard (the periodic timer is not modelled). */
    method Initialize(id: string) returns (started: bool)
      requires Valid()
      modifies this`stationId, this`departures, this`isFetching
      ensures Valid()
      ensures old(stationId) == Some(id) ==>
                !started && stationId == old(stationId) && departures == old(departures) && isFetching == old(isFetching)
      ensures old(stationId) != Some(id) ==>
                && stationId == Some(id) && departures == []
                && started == (id != "" && !old(isFetching))
                && isFetching == (old(isFetching) || started)
    {
      if stationId == Some(id) {
        return false;
      }
      stationId := Some(id);
      departures := [];
      started := BeginRefresh();
    }

    /** `_backgroundRefresh` (and `triggerRefresh`) up to the `await`: past
        the guard it resets the cache and marks a request in flight; at the
        guard it changes nothing and nothing is notified. */
    method BeginRefresh() returns (started: bool)
      requires Valid()
      modifies this`departures, this`isFetching
      ensures Valid()
      ensures started == old(CanRefresh())
      ensures started ==> departures == [] && isFetching
      ensures !started ==> departures == old(departures) && isFetching == old(isFetching)
    {
      if stationId.None? || stationId.value == "" || isFetching {
        return false;
      }
      departures := [];  // resetCache
      isFetching := true;
      started := true;
    }

    /** The rest of `_fetchAndAppendRawData(0)` and `_backgroundRefresh`
        once the request of the refresh in flight ends: store the page or
        the error, clear the in-flight flag, stamp the time, notify. */
    method CompleteRefresh(outcome: FetchOutcome, now: int, reactions: map<SubscriberId, seq<BusAction>>)
      returns (called: seq<SubscriberId>)
      requires Valid() && isFetching
      modifies this
      ensures Valid() && !isFetching
      ensures stationId == old(stationId)
      ensures outcome.Responded? ==>
                error == None && departures == Distinct(RefreshCandidates(outcome.data, now))
      ensures outcome.Failed? ==>
                departures == old(departures) &&
                error == (if outcome.thrown.ThrownError? then Some(outcome.thrown.err) else old(error))
      ensures lastFullRefresh == Some(now)
      ensures called == old(subscribers)
      ensures subscribers == ApplyActions(old(subscribers), Reactions(called, reactions))
    {
      match outcome {
        case Failed(thrown) =>
          if thrown.ThrownError? {
            error := Some(thrown.err);
          }
        case Responded(data) =>
          error := None;
          if |data| > 0 {
            for i := 0 to |data|
              modifies this`departures
              invariant departures == Distinct(RefreshCandidates(data[..i], now))
            {
              var entry := data[i];
              assert data[..i + 1] == data[..i] + [entry];
              assert DropLast(data[..i + 1]) == data[..i];
              var c := RefreshCandidates(data[..i], now);
              assert c + [] == c;
              AppendNewSnoc([], c, ServiceDeparture(entry));
              if entry.cancelled {
                continue;
              }
              var departure := ServiceDeparture(entry);
              // departure in the past
              if departure.time < now + Mvg.GuardMs {
                continue;
              }
              // already in the list (same time, destination and line)
              if departure in departures {
                continue;
              }
              departures := departures + [departure];
            }
            assert data[..|data|] == data;
          }
          assert NoDuplicates(departures) by {
            DistinctProperties(RefreshCandidates(data, now));
          }
      }
      isFetching := false;
      lastFullRefresh := Some(now);
      called := Notify(reactions);
    }

    /** `getDepartures(config)`: the stored error when there is one,
        otherwise the cached departures that pass the view filter. */
    function GetDepartures(config: Config): (r: DeparturesOrError)
      reads this
      ensures error.Some? ==> r == Error(error.value)
      ensures error.None? ==>
                && r.Departures?
                && IsSubsequence(r.list, departures)
                && (forall d :: d in r.list <==> d in departures && Visible(d, config))
                && (NoDuplicates(departures) ==> NoDuplicates(r.list))
    {
      if error.Some? then Error(error.value)
      else
        ViewFilterProperties(departures, config);
        Departures(ViewFilter(departures, config))
    }

    /** `getAvailableLines()`: the distinct (line, destination) pairs of
        the cache, in first-seen order. */
    method GetAvailableLines() returns (lines: seq<LineDest>)
      ensures lines == Distinct(LineDestsOf(departures))
      ensures NoDuplicates(lines)
      ensures forall ld :: ld in lines <==> exists d :: d in departures && d.linedest == ld
    {
      lines := [];
      for i := 0 to |departures|
        invariant lines == Distinct(LineDestsOf(departures[..i]))
      {
        var d := departures[i];
        assert departures[..i + 1] == departures[..i] + [d];
        assert DropLast(departures[..i + 1]) == departures[..i];
        AppendNewSnoc([], LineDestsOf(departures[..i]), d.linedest);
        if !(d.linedest in lines) {
          lines := lines + [d.linedest];
        }
      }
      assert departures[..|departures|] == departures;
      DistinctProperties(LineDestsOf(departures));
      LineDestsOfMembers(departures);
    }
  }

  function LineDestsOf(ds: seq<Departure>): seq<LineDest>
    decreases |ds|
  {
    if ds == [] then [] else LineDestsOf(DropLast(ds)) + [Last(ds).linedest]
  }

  lemma {:induction false} LineDestsOfMembers(ds: seq<Departure>)
    ensures forall ld :: ld in LineDestsOf(ds) <==> exists d :: d in ds && d.linedest == ld
    decreases |ds|
  {
    if ds != [] {
      LineDestsOfMembers(DropLast(ds));
      assert ds == DropLast(ds) + [Last(ds)];
    }
  }

  /** A refresh that is still in flight when the station changes is not
      discarded: its page lands in the cache of the new station. */
  method StaleResultAfterSwitch() returns (cached: seq<Departure>)
    ensures cached == [ServiceDeparture(RawEntry(false, 100000, "U6", "Garching"))]
  {
    var s := new MvgService();
    var started := s.Initialize("de:09162:6");
    assert started && s.isFetching;
    started := s.Initialize("de:09162:70");
    assert !started && s.departures == [] && s.stationId == Some("de:09162:70");
    var late := RawEntry(false, 100000, "U6", "Garching");
    var called := s.CompleteRefresh(Responded([late]), 0, map[]);
    assert [late] == [] + [late];
    assert DropLast([late]) == [];
    AppendNewSnoc([], [], ServiceDeparture(late));
    cached := s.departures;
  }
}
