/** src/lib/mvg.ts: the paginated departure assembly `fetchDepartures`, its
    wildcard test `filterTestDep`, and the dedup loop of
    `fetchDepartingLines`. The feed is an input sequence of pages (the k-th
    request is answered by `pages[k]`) and the clock is the input `now`. */
module Mvg {
  import opened Types
  import opened Seqs
  import opened Text

  // ---------------------------------------------------------------------
  // filterTestDep: `new RegExp(pattern.replaceAll("*", ".*")).test(value)`
  // for a pattern of literal characters and `*`

  /** Some prefix of `v` matches `p`, where `*` stands for `.*`: a run of
      characters none of which is a line terminator. */
  predicate MatchesPrefix(p: string, v: string)
    decreases |p| + |v|
  {
    if p == [] then true
    else if p[0] == '*' then
      MatchesPrefix(p[1..], v) ||
      (v != [] && !IsLineTerminator(v[0]) && MatchesPrefix(p, v[1..]))
    else
      v != [] && v[0] == p[0] && MatchesPrefix(p[1..], v[1..])
  }

  /** `RegExp.prototype.test` on an unanchored, case-sensitive regex: a
      match may start anywhere in `v`. */
  predicate Search(p: string, v: string)
    decreases |v|
  {
    MatchesPrefix(p, v) || (v != [] && Search(p, v[1..]))
  }

  predicate HasNoStar(p: string) {
    '*' !in p
  }

  /** `filterTestDep(departure)(filter)`: both fields must match. */
  predicate FilterTestDep(ld: LineDest, filter: LineDest) {
    Search(filter.destination, ld.destination) && Search(filter.line, ld.line)
  }

  /** `filters.some(filterTestDep(ld))`. */
  predicate AnyMatch(ld: LineDest, filters: seq<LineDest>) {
    exists f :: f in filters && FilterTestDep(ld, f)
  }

  lemma {:induction false} MatchesPrefixLiteral(p: string, v: string)
    requires HasNoStar(p)
    ensures MatchesPrefix(p, v) <==> |p| <= |v| && v[..|p|] == p
    decreases |p|
  {
    if p != [] && v != [] {
      MatchesPrefixLiteral(p[1..], v[1..]);
      assert p == [p[0]] + p[1..];
      if |p| <= |v| {
        assert v[..|p|] == [v[0]] + v[1..][..|p| - 1];
      }
    }
  }

  /** `p` occurs in `v` starting at index `i`. */
  predicate OccursAt(p: string, v: string, i: int) {
    0 <= i <= |v| - |p| && v[i..i + |p|] == p
  }

  /** A pattern without `*` matches exactly the values that contain it. */
  lemma {:induction false} SearchLiteral(p: string, v: string)
    requires HasNoStar(p)
    ensures Search(p, v) <==> exists i :: OccursAt(p, v, i)
    decreases |v|
  {
    MatchesPrefixLiteral(p, v);
    if v != [] {
      SearchLiteral(p, v[1..]);
      if Search(p, v[1..]) {
        var i :| OccursAt(p, v[1..], i);
        assert v[i + 1..i + 1 + |p|] == v[1..][i..i + |p|];
        assert OccursAt(p, v, i + 1);
      }
      if MatchesPrefix(p, v) {
        assert OccursAt(p, v, 0);
      }
      if exists i :: OccursAt(p, v, i) {
        var i :| OccursAt(p, v, i);
        if i > 0 {
          assert v[1..][i - 1..i - 1 + |p|] == v[i..i + |p|];
          assert OccursAt(p, v[1..], i - 1);
        } else {
          assert v[..|p|] == p;
        }
      }
    } else {
      if p == [] {
        assert OccursAt(p, v, 0);
      }
      if exists i :: OccursAt(p, v, i) {
        var i :| OccursAt(p, v, i);
        assert p == [];
      }
    }
  }

  lemma {:induction false} MatchesPrefixExtend(p: string, v: string, w: string)
    requires MatchesPrefix(p, v)
    ensures MatchesPrefix(p, v + w)
    decreases |p| + |v|
  {
    if p != [] {
      if p[0] == '*' {
        if MatchesPrefix(p[1..], v) {
          MatchesPrefixExtend(p[1..], v, w);
        } else {
          MatchesPrefixExtend(p, v[1..], w);
          assert (v + w)[1..] == v[1..] + w;
        }
      } else {
        MatchesPrefixExtend(p[1..], v[1..], w);
        assert (v + w)[1..] == v[1..] + w;
      }
    }
  }

  lemma {:induction false} SearchAppend(p: string, v: string, w: string)
    requires Search(p, v)
    ensures Search(p, v + w)
    decreases |v|
  {
    if MatchesPrefix(p, v) {
      MatchesPrefixExtend(p, v, w);
    } else {
      SearchAppend(p, v[1..], w);
      assert (v + w)[1..] == v[1..] + w;
    }
  }

  lemma {:induction false} SearchPrepend(p: string, u: string, v: string)
    requires Search(p, v)
    ensures Search(p, u + v)
    decreases |u|
  {
    if u != [] {
      SearchPrepend(p, u[1..], v);
      assert (u + v)[1..] == u[1..] + v;
    } else {
      assert u + v == v;
    }
  }

  /** The test is unanchored: a value that matches still matches with any
      text around it. */
  lemma SearchInContext(p: string, u: string, v: string, w: string)
    requires Search(p, v)
    ensures Search(p, u + v + w)
  {
    SearchAppend(p, v, w);
    SearchPrepend(p, u, v + w);
    assert u + (v + w) == u + v + w;
  }

  /** What `.` of a JavaScript regular expression matches throughout. */
  predicate NoLineTerminator(s: string) {
    forall k :: 0 <= k < |s| ==> !IsLineTerminator(s[k])
  }

  /** Star-free text at the head of a pattern consumes exactly itself. */
  lemma {:induction false} MatchesPrefixLiteralHead(a: string, r: string, v: string)
    requires HasNoStar(a)
    ensures MatchesPrefix(a + r, v) <==>
            |a| <= |v| && v[..|a|] == a && MatchesPrefix(r, v[|a|..])
    decreases |a|
  {
    if a == [] {
      assert a + r == r && v[..0] == [] && v[0..] == v;
    } else {
      assert a[0] in a;
      assert (a + r)[0] == a[0] && (a + r)[1..] == a[1..] + r;
      if v != [] {
        MatchesPrefixLiteralHead(a[1..], r, v[1..]);
        assert a == [a[0]] + a[1..];
        if |a| <= |v| {
          assert v[..|a|] == [v[0]] + v[1..][..|a| - 1];
          assert v[|a|..] == v[1..][|a| - 1..];
        }
      }
    }
  }

  /** A `*` at the head of a pattern consumes a run without line
      terminators, and the rest of the pattern matches from there on. */
  lemma {:induction false} MatchesPrefixStarHead(q: string, w: string)
    ensures MatchesPrefix(['*'] + q, w) <==>
            exists j :: 0 <= j <= |w| && NoLineTerminator(w[..j]) && MatchesPrefix(q, w[j..])
    decreases |w|
  {
    var p := ['*'] + q;
    assert p[0] == '*' && p[1..] == q;
    if w != [] {
      MatchesPrefixStarHead(q, w[1..]);
    }
    if MatchesPrefix(p, w) {
      if MatchesPrefix(q, w) {
        assert NoLineTerminator(w[..0]) && w[0..] == w;
      } else {
        var j :| 0 <= j <= |w[1..]| && NoLineTerminator(w[1..][..j]) && MatchesPrefix(q, w[1..][j..]);
        assert w[1..][j..] == w[j + 1..];
        var u, t := w[..j + 1], w[1..][..j];
        forall k | 0 <= k < |u|
          ensures !IsLineTerminator(u[k])
        {
          if k > 0 {
            assert u[k] == t[k - 1];
          }
        }
        assert NoLineTerminator(w[..j + 1]) && MatchesPrefix(q, w[j + 1..]);
      }
    }
    if exists j :: 0 <= j <= |w| && NoLineTerminator(w[..j]) && MatchesPrefix(q, w[j..]) {
      var j :| 0 <= j <= |w| && NoLineTerminator(w[..j]) && MatchesPrefix(q, w[j..]);
      if j == 0 {
        assert w[0..] == w;
      } else {
        assert !IsLineTerminator(w[0]) by {
          assert w[..j][0] == w[0];
        }
        var u, t := w[1..][..j - 1], w[..j];
        forall k | 0 <= k < |u|
          ensures !IsLineTerminator(u[k])
        {
          assert u[k] == t[k + 1];
        }
        assert w[1..][j - 1..] == w[j..];
        assert NoLineTerminator(w[1..][..j - 1]) && MatchesPrefix(q, w[1..][j - 1..]);
      }
    }
  }

  /** The search tries every start position. */
  lemma {:induction false} SearchSomewhere(p: string, v: string)
    ensures Search(p, v) <==> exists i :: 0 <= i <= |v| && MatchesPrefix(p, v[i..])
    decreases |v|
  {
    if v != [] {
      SearchSomewhere(p, v[1..]);
      if Search(p, v[1..]) {
        var i :| 0 <= i <= |v[1..]| && MatchesPrefix(p, v[1..][i..]);
        assert v[1..][i..] == v[i + 1..];
      }
      if exists i :: 0 <= i <= |v| && MatchesPrefix(p, v[i..]) {
        var i :| 0 <= i <= |v| && MatchesPrefix(p, v[i..]);
        if i > 0 {
          assert v[1..][i - 1..] == v[i..];
        }
      }
    }
    assert v[0..] == v;
  }

  /** The `*` of a match of `a*q` starting at `s`, located. */
  lemma StarAmidTextSplit(a: string, q: string, v: string, s: nat) returns (j: nat)
    requires HasNoStar(a) && s <= |v| && MatchesPrefix(a + (['*'] + q), v[s..])
    ensures OccursAt(a, v, s) && s + |a| <= j <= |v|
    ensures NoLineTerminator(v[s + |a|..j]) && MatchesPrefix(q, v[j..])
  {
    var w := v[s..];
    MatchesPrefixLiteralHead(a, ['*'] + q, w);
    assert w[..|a|] == v[s..s + |a|] && w[|a|..] == v[s + |a|..];
    var n := s + |a|;
    MatchesPrefixStarHead(q, v[n..]);
    var k :| 0 <= k <= |v[n..]| && NoLineTerminator(v[n..][..k]) && MatchesPrefix(q, v[n..][k..]);
    j := n + k;
    assert v[n..][..k] == v[n..j] && v[n..][k..] == v[j..];
  }

  lemma StarAmidTextJoin(a: string, q: string, v: string, s: nat, j: nat)
    requires HasNoStar(a) && OccursAt(a, v, s) && s + |a| <= j <= |v|
    requires NoLineTerminator(v[s + |a|..j]) && MatchesPrefix(q, v[j..])
    ensures MatchesPrefix(a + (['*'] + q), v[s..])
  {
    var w := v[s..];
    var n := s + |a|;
    var rest := v[n..];
    assert MatchesPrefix(['*'] + q, rest) by {
      MatchesPrefixStarHead(q, rest);
      assert rest[..j - n] == v[n..j] && rest[j - n..] == v[j..];
      assert NoLineTerminator(rest[..j - n]) && MatchesPrefix(q, rest[j - n..]);
    }
    assert |a| <= |w| && w[..|a|] == a by {
      assert w[..|a|] == v[s..n];
    }
    assert w[|a|..] == rest;
    MatchesPrefixLiteralHead(a, ['*'] + q, w);
  }

  /** A `*` amid text, the meaning of `*` in general: the value contains
      the star-free text `a` at some `s`, then a run `v[s + |a|..j]` free
      of line terminators, then a match of the rest of the pattern; what
      comes before `s` and after that match is free, as the search is
      unanchored. */
  lemma SearchStarAmidText(a: string, q: string, v: string)
    requires HasNoStar(a)
    ensures Search(a + "*" + q, v) <==>
            exists s, j :: 0 <= s && s + |a| <= j <= |v| && OccursAt(a, v, s) &&
                           NoLineTerminator(v[s + |a|..j]) && MatchesPrefix(q, v[j..])
  {
    var p := a + (['*'] + q);
    assert a + "*" + q == p;
    SearchSomewhere(p, v);
    if Search(p, v) {
      var s :| 0 <= s <= |v| && MatchesPrefix(p, v[s..]);
      var j := StarAmidTextSplit(a, q, v, s);
    }
    if exists s, j :: 0 <= s && s + |a| <= j <= |v| && OccursAt(a, v, s) &&
                      NoLineTerminator(v[s + |a|..j]) && MatchesPrefix(q, v[j..]) {
      var s, j :| 0 <= s && s + |a| <= j <= |v| && OccursAt(a, v, s) &&
                  NoLineTerminator(v[s + |a|..j]) && MatchesPrefix(q, v[j..]);
      StarAmidTextJoin(a, q, v, s, j);
    }
  }

  /** An empty pattern field matches any value, so a filter whose both
      fields are empty matches every departure. */
  lemma EmptyFilterMatchesAll(ld: LineDest)
    ensures FilterTestDep(ld, LineDest("", ""))
  {
  }

  // ---------------------------------------------------------------------
  // fetchDepartures

  /** Entries that depart sooner than this many milliseconds are skipped. */
  const GuardMs := 10000
  /** Offsets in the feed request are whole minutes. */
  const MinuteMs := 60000

  function ToDeparture(e: RawEntry): Departure {
    Departure(LineDest(e.lineLabel, e.destination), e.realtimeDepartureTime)
  }

  /** An entry passes every per-entry check of the page loop (all but the
      dedup): not cancelled, at least 10 s ahead, matched by some include
      filter when there are any, and matched by no exclude filter. */
  predicate Accepts(e: RawEntry, now: int, includeFilters: seq<LineDest>, excludeFilters: seq<LineDest>) {
    && !e.cancelled
    && e.realtimeDepartureTime >= now + GuardMs
    && (|includeFilters| != 0 ==> AnyMatch(ToDeparture(e).linedest, includeFilters))
    && !AnyMatch(ToDeparture(e).linedest, excludeFilters)
  }

  /** The departures of the accepted entries, in feed order. */
  function Candidates(es: seq<RawEntry>, now: int, includeFilters: seq<LineDest>, excludeFilters: seq<LineDest>): seq<Departure>
    decreases |es|
  {
    if es == [] then []
    else
      Candidates(DropLast(es), now, includeFilters, excludeFilters) +
      (if Accepts(Last(es), now, includeFilters, excludeFilters) then [ToDeparture(Last(es))] else [])
  }

  /** The entries of the first `n` pages, in request order. */
  function Flat(pages: seq<seq<RawEntry>>, n: nat): seq<RawEntry>
    requires n <= |pages|
  {
    if n == 0 then [] else Flat(pages, n - 1) + pages[n - 1]
  }

  /** What the page loop has collected after reading `es`, had it not
      stopped: every accepted departure not already collected. */
  function Collected(es: seq<RawEntry>, now: int, includeFilters: seq<LineDest>, excludeFilters: seq<LineDest>): seq<Departure> {
    Distinct(Candidates(es, now, includeFilters, excludeFilters))
  }

  /** `Math.ceil(a / b)` for a positive divisor. */
  function CeilDiv(a: int, b: int): (q: int)
    requires b > 0
    ensures (q - 1) * b < a <= q * b
  {
    var r := (-a) / b;
    assert -a == r * b + (-a) % b;
    -r
  }

  /** The offset of the request after `page`: whole minutes, rounded up,
      from `now` to the LAST raw entry of the page, whatever became of it. */
  function NextOffset(page: seq<RawEntry>, now: int): int
    requires page != []
  {
    CeilDiv(Last(page).realtimeDepartureTime - now, MinuteMs)
  }

  /** How one call of `fetchDepartures` ends. Every outcome lists the
      offsets of the requests it issued; request i is answered by `pages[i]`
      when there is one. */
  datatype FetchResult =
      /** normal return */
    | Fetched(departures: seq<Departure>, offsets: seq<int>)
      /** a page without entries: `data[data.length - 1]` is `undefined`,
          and reading its time throws */
    | EmptyPageError(offsets: seq<int>)
      /** the last request issued has no page in the input; the source would
          go on waiting for it and paging */
    | OutOfPages(offsets: seq<int>)

  /** The request offsets: the first is 0, each later one is computed from
      the last raw entry of the page before it, which was not empty. */
  predicate OffsetsFollowPages(pages: seq<seq<RawEntry>>, now: int, offsets: seq<int>) {
    && |offsets| <= |pages| + 1
    && (|offsets| > 0 ==> offsets[0] == 0)
    && forall i :: 0 <= i < |offsets| - 1 ==>
         pages[i] != [] && offsets[i + 1] == NextOffset(pages[i], now)
  }

  lemma CandidatesSnoc(es: seq<RawEntry>, e: RawEntry, now: int, includeFilters: seq<LineDest>, excludeFilters: seq<LineDest>)
    ensures Candidates(es + [e], now, includeFilters, excludeFilters) ==
            Candidates(es, now, includeFilters, excludeFilters) +
            (if Accepts(e, now, includeFilters, excludeFilters) then [ToDeparture(e)] else [])
  {
    assert DropLast(es + [e]) == es;
  }

  /** One entry more: it is collected iff it is accepted and not yet there. */
  lemma CollectedSnoc(es: seq<RawEntry>, e: RawEntry, now: int, includeFilters: seq<LineDest>, excludeFilters: seq<LineDest>)
    ensures Collected(es + [e], now, includeFilters, excludeFilters) ==
            (var p := Collected(es, now, includeFilters, excludeFilters);
             if Accepts(e, now, includeFilters, excludeFilters) && ToDeparture(e) !in p
             then p + [ToDeparture(e)] else p)
  {
    var c := Candidates(es, now, includeFilters, excludeFilters);
    CandidatesSnoc(es, e, now, includeFilters, excludeFilters);
    AppendNewSnoc([], c, ToDeparture(e));
    assert c + [] == c;
  }

  /** Candidate selection works entry by entry, so it distributes over
      concatenation (over pages in particular). */
  lemma {:induction false} CandidatesAppend(es: seq<RawEntry>, fs: seq<RawEntry>, now: int, includeFilters: seq<LineDest>, excludeFilters: seq<LineDest>)
    ensures Candidates(es + fs, now, includeFilters, excludeFilters) ==
            Candidates(es, now, includeFilters, excludeFilters) + Candidates(fs, now, includeFilters, excludeFilters)
    decreases |fs|
  {
    if fs == [] {
      assert es + fs == es;
    } else {
      CandidatesAppend(es, DropLast(fs), now, includeFilters, excludeFilters);
      assert es + fs == (es + DropLast(fs)) + [Last(fs)];
      CandidatesSnoc(es + DropLast(fs), Last(fs), now, includeFilters, excludeFilters);
    }
  }

  /** Every candidate is the departure of an accepted entry, and every
      accepted entry yields a candidate. */
  lemma {:induction false} CandidatesProvenance(es: seq<RawEntry>, now: int, includeFilters: seq<LineDest>, excludeFilters: seq<LineDest>)
    ensures forall d :: d in Candidates(es, now, includeFilters, excludeFilters) <==>
              exists e :: e in es && Accepts(e, now, includeFilters, excludeFilters) && ToDeparture(e) == d
    decreases |es|
  {
    if es != [] {
      CandidatesProvenance(DropLast(es), now, includeFilters, excludeFilters);
      assert es == DropLast(es) + [Last(es)];
    }
  }

  /** The properties a returned list has, for any prefix of what the loop
      collects: no repeated (time, line, destination), each departure comes
      from a non-cancelled entry at least 10 s ahead that matches no exclude
      filter and, if there are include filters, matches one of them, and
      the list keeps feed order. */
  lemma CollectedPrefixProperties(es: seq<RawEntry>, now: int, includeFilters: seq<LineDest>, excludeFilters: seq<LineDest>, k: nat)
    requires k <= |Collected(es, now, includeFilters, excludeFilters)|
    ensures var r := Collected(es, now, includeFilters, excludeFilters)[..k];
      && NoDuplicates(r)
      && IsSubsequence(r, Candidates(es, now, includeFilters, excludeFilters))
      && forall d :: d in r ==>
           exists e :: (e in es && ToDeparture(e) == d
             && !e.cancelled
             && e.realtimeDepartureTime >= now + GuardMs
             && !AnyMatch(d.linedest, excludeFilters)
             && (|includeFilters| != 0 ==> AnyMatch(d.linedest, includeFilters)))
  {
    var c := Candidates(es, now, includeFilters, excludeFilters);
    var all := Distinct(c);
    DistinctProperties(c);
    CandidatesProvenance(es, now, includeFilters, excludeFilters);
    SubsequencePrefix(all, c, k);
    forall d | d in all[..k]
      ensures exists e :: (e in es && ToDeparture(e) == d
             && !e.cancelled
             && e.realtimeDepartureTime >= now + GuardMs
             && !AnyMatch(d.linedest, excludeFilters)
             && (|includeFilters| != 0 ==> AnyMatch(d.linedest, includeFilters)))
    {
      assert d in c;
      var e :| e in es && Accepts(e, now, includeFilters, excludeFilters) && ToDeparture(e) == d;
    }
  }

  /** Stopping in the middle of a page yields the first departures of what
      the whole page would have produced. */
  lemma StopInsidePage(pages: seq<seq<RawEntry>>, k: nat, i: nat, now: int, includeFilters: seq<LineDest>, excludeFilters: seq<LineDest>)
    requires k < |pages| && i <= |pages[k]|
    ensures var part := Collected(Flat(pages, k) + pages[k][..i], now, includeFilters, excludeFilters);
            var whole := Collected(Flat(pages, k + 1), now, includeFilters, excludeFilters);
            |part| <= |whole| && whole[..|part|] == part
  {
    var x := Flat(pages, k) + pages[k][..i];
    var y := pages[k][i..];
    assert Flat(pages, k + 1) == x + y by {
      assert pages[k] == pages[k][..i] + pages[k][i..];
    }
    CandidatesAppend(x, y, now, includeFilters, excludeFilters);
    DistinctPrefix(Candidates(x, now, includeFilters, excludeFilters), Candidates(y, now, includeFilters, excludeFilters));
  }

  /** The request after a non-empty page extends the offsets. */
  lemma OffsetsStep(pages: seq<seq<RawEntry>>, now: int, offsets: seq<int>)
    requires 1 <= |offsets| <= |pages| && pages[|offsets| - 1] != []
    requires OffsetsFollowPages(pages, now, offsets)
    ensures OffsetsFollowPages(pages, now, offsets + [NextOffset(pages[|offsets| - 1], now)])
  {
  }

  /** The `for (const entry of data)` loop over one page: each entry is
      checked and appended in turn until the list holds `min` departures,
      where the source leaves both loops. `seen` holds the entries of the
      pages before; `used` counts the entries of this page that were read. */
  method ReadPage(ghost seen: seq<RawEntry>, departures: seq<Departure>, data: seq<RawEntry>, now: int,
                  includeFilters: seq<LineDest>, excludeFilters: seq<LineDest>, min: int)
    returns (ds: seq<Departure>, full: bool, ghost used: nat)
    requires departures == Collected(seen, now, includeFilters, excludeFilters)
    requires |departures| < min
    ensures used <= |data|
    ensures ds == Collected(seen + data[..used], now, includeFilters, excludeFilters)
    ensures full <==> |ds| == min
    ensures !full ==> used == |data| && |ds| < min
  {
    ds := departures;
    assert seen + data[..0] == seen;
    for i := 0 to |data|
      invariant ds == Collected(seen + data[..i], now, includeFilters, excludeFilters)
      invariant |ds| < min
    {
      var entry := data[i];
      assert seen + data[..i + 1] == (seen + data[..i]) + [entry];
      CollectedSnoc(seen + data[..i], entry, now, includeFilters, excludeFilters);
      if entry.cancelled {
        continue;
      }
      var departure := ToDeparture(entry);
      // departure in the past
      if departure.time < now + GuardMs {
        continue;
      }
      // include filters exist and none matches
      if |includeFilters| != 0 {
        if !AnyMatch(departure.linedest, includeFilters) {
          continue;
        }
      }
      // some exclude filter matches
      if AnyMatch(departure.linedest, excludeFilters) {
        continue;
      }
      // already in the list (same time, destination and line)
      if departure in ds {
        continue;
      }
      ds := ds + [departure];
      if |ds| == min {
        return ds, true, i + 1;
      }
    }
    return ds, false, |data|;
  }

  /** The page loop. `now` stands for every clock reading of the call. */
  method FetchDepartures(pages: seq<seq<RawEntry>>, now: int, includeFilters: seq<LineDest>, excludeFilters: seq<LineDest>, min: int)
    returns (r: FetchResult)
    ensures OffsetsFollowPages(pages, now, r.offsets)
    ensures min <= 0 ==> r == Fetched([], [])
    ensures min > 0 ==> |r.offsets| >= 1
    // the loop goes on to the next request only while it still has too few
    ensures forall n :: 1 <= n < |r.offsets| ==>
              |Collected(Flat(pages, n), now, includeFilters, excludeFilters)| < min
    ensures r.Fetched? && min > 0 ==>
              && |r.offsets| <= |pages|
              && |r.departures| == min
              && min <= |Collected(Flat(pages, |r.offsets|), now, includeFilters, excludeFilters)|
              && r.departures == Collected(Flat(pages, |r.offsets|), now, includeFilters, excludeFilters)[..min]
    ensures r.EmptyPageError? ==>
              && 1 <= |r.offsets| <= |pages|
              && pages[|r.offsets| - 1] == []
              && |Collected(Flat(pages, |r.offsets|), now, includeFilters, excludeFilters)| < min
    ensures r.OutOfPages? ==>
              && |r.offsets| == |pages| + 1
              && |Collected(Flat(pages, |pages|), now, includeFilters, excludeFilters)| < min
  {
    var departures: seq<Departure> := [];
    var offset := 0;
    var offsets: seq<int> := [];
    var k := 0;
    while |departures| < min
      invariant 0 <= k <= |pages| && |offsets| == k
      invariant OffsetsFollowPages(pages, now, offsets + [offset])
      invariant departures == Collected(Flat(pages, k), now, includeFilters, excludeFilters)
      invariant k > 0 ==> |departures| < min
      invariant forall n :: 1 <= n <= k ==> |Collected(Flat(pages, n), now, includeFilters, excludeFilters)| < min
      decreases |pages| - k
    {
      offsets := offsets + [offset];
      if k == |pages| {
        return OutOfPages(offsets);
      }
      var data := pages[k];
      var full;
      ghost var used;
      departures, full, used := ReadPage(Flat(pages, k), departures, data, now, includeFilters, excludeFilters, min);
      if full {
        // break outer
        StopInsidePage(pages, k, used, now, includeFilters, excludeFilters);
        return Fetched(departures, offsets);
      }
      assert data[..|data|] == data;
      assert Flat(pages, k + 1) == Flat(pages, k) + data;
      if data == [] {
        return EmptyPageError(offsets);
      }
      OffsetsStep(pages, now, offsets);
      offset := NextOffset(data, now);
      k := k + 1;
    }
    return Fetched(departures, offsets);
  }

  // ---------------------------------------------------------------------
  // worked cases

  /** The result is in acceptance order, not sorted: a page listing a later
      departure first yields it first. */
  lemma AcceptanceOrderIsNotTimeOrder()
    ensures var late := RawEntry(false, 200000, "U6", "Garching");
            var early := RawEntry(false, 100000, "U6", "Klinikum");
            Collected([late, early], 0, [], []) == [ToDeparture(late), ToDeparture(early)]
  {
    var late := RawEntry(false, 200000, "U6", "Garching");
    var early := RawEntry(false, 100000, "U6", "Klinikum");
    CandidatesSnoc([late], early, 0, [], []);
    assert [late, early] == [late] + [early];
    CandidatesSnoc([], late, 0, [], []);
    assert [late] == [] + [late];
    AppendNewSnoc([], [ToDeparture(late)], ToDeparture(early));
    AppendNewSnoc([], [], ToDeparture(late));
    assert [ToDeparture(late)] == [] + [ToDeparture(late)];
    assert [ToDeparture(late), ToDeparture(early)] == [ToDeparture(late)] + [ToDeparture(early)];
  }

  /** The same raw entry on two successive pages is collected once. */
  lemma RepeatAcrossPagesCollapses(e: RawEntry, now: int, includeFilters: seq<LineDest>, excludeFilters: seq<LineDest>)
    requires Accepts(e, now, includeFilters, excludeFilters)
    ensures Collected(Flat([[e], [e]], 2), now, includeFilters, excludeFilters) == [ToDeparture(e)]
  {
    assert Flat([[e], [e]], 1) == [e] by {
      assert Flat([[e], [e]], 0) == [];
      assert [] + [e] == [e];
    }
    assert Flat([[e], [e]], 2) == [e] + [e];
    CandidatesSnoc([e], e, now, includeFilters, excludeFilters);
    CandidatesSnoc([], e, now, includeFilters, excludeFilters);
    assert [e] == [] + [e];
    var d := ToDeparture(e);
    AppendNewSnoc([], [d], d);
    AppendNewSnoc([], [], d);
    assert [d] == [] + [d];
    assert [d, d] == [d] + [d];
  }

  /** A last raw entry a little under 12 minutes ahead makes the next request
      use offset 12. */
  lemma NextOffsetRoundsUp(now: int)
    ensures NextOffset([RawEntry(true, now + 11 * MinuteMs + 1, "U6", "Garching")], now) == 12
  {
  }

  // ---------------------------------------------------------------------
  // the dedup loop of fetchDepartingLines

  function LineDestOf(e: RawEntry): LineDest {
    LineDest(e.lineLabel, e.destination)
  }

  function LineDests(es: seq<RawEntry>): (lds: seq<LineDest>)
    ensures |lds| == |es|
    ensures forall i :: 0 <= i < |es| ==> lds[i] == LineDestOf(es[i])
    decreases |es|
  {
    if es == [] then [] else LineDests(DropLast(es)) + [LineDestOf(Last(es))]
  }

  /** The distinct (line, destination) pairs of one response, in the order
      they are first seen. */
  method FetchDepartingLines(data: seq<RawEntry>) returns (pairs: seq<LineDest>)
    ensures pairs == Distinct(LineDests(data))
    ensures NoDuplicates(pairs)
    ensures forall ld :: ld in pairs <==> exists i :: 0 <= i < |data| && LineDestOf(data[i]) == ld
  {
    pairs := [];
    for i := 0 to |data|
      invariant pairs == Distinct(LineDests(data[..i]))
    {
      var linedest := LineDestOf(data[i]);
      assert data[..i + 1] == data[..i] + [data[i]];
      assert LineDests(data[..i + 1]) == LineDests(data[..i]) + [linedest] by {
        assert DropLast(data[..i + 1]) == data[..i];
      }
      AppendNewSnoc([], LineDests(data[..i]), linedest);
      if linedest in pairs {
        continue;
      }
      pairs := pairs + [linedest];
    }
    assert data[..|data|] == data;
    DistinctProperties(LineDests(data));
  }
}
