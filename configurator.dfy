/** The helpers of the configurator page (src/app/page.tsx): the filter
    text boxes, the anchored case-insensitive wildcard matcher that
    colours the line pills, the three-state pills, and the merge of typed
    and clicked filters into the preview configuration. */
module Configurator {
  import opened Types
  import opened Seqs
  import opened Text
  import ParseConfig
  import Mvg

  // ---------------------------------------------------------------------
  // the filter text boxes

  /** `decodeFilters(str)` of the page: a blank text box gives `[]`,
      anything else is split as the URL codec splits it. */
  function DecodeFilters(str: string): seq<LineDest> {
    if IsBlank(str) then [] else ParseConfig.FiltersOfTokens(Split(str, ';'))
  }

  /** Whitespace-only input gives no filter; any other input gives what
      the URL codec's decoder gives. The two decoders differ only there:
      `" "` is no filter here and a filter with line `" "` in a URL. */
  lemma DecodersAgree(str: string)
    ensures (forall i :: 0 <= i < |str| ==> IsJsWhitespace(str[i])) ==> DecodeFilters(str) == []
    ensures !(forall i :: 0 <= i < |str| ==> IsJsWhitespace(str[i])) ==>
              DecodeFilters(str) == ParseConfig.DecodeFilters(Some(str))
  {
    BlankIffAllWhitespace(str);
  }

  /** The blank-space difference, on the string `" "`. */
  lemma BlankTextBoxDiffers()
    ensures DecodeFilters(" ") == []
    ensures ParseConfig.DecodeFilters(Some(" ")) == [LineDest(" ", "")]
  {
    assert TrimStart(" ") == TrimStart("");
    ParseConfig.DecodeSingleToken(" ");
  }

  // ---------------------------------------------------------------------
  // the pill matcher

  /** What the `i` flag identifies: ASCII letters fold to lower case. */
  function ToLower(c: char): char {
    if 'A' <= c <= 'Z' then (c as int + 32) as char else c
  }

  predicate SameIgnoringCase(a: string, b: string) {
    |a| == |b| && forall i :: 0 <= i < |a| ==> ToLower(a[i]) == ToLower(b[i])
  }

  /** `patternToRegex(pattern).test(value)`. The source escapes every
      metacharacter, `*` included, before it rewrites `*` to `.*`; so a `*`
      of the pattern becomes `\.*` and matches a run of literal dots. The
      regular expression is anchored at both ends and case-insensitive. */
  predicate PatternMatches(p: string, v: string)
    decreases |p| + |v|
  {
    if p == [] then v == []
    else if p[0] == '*' then
      PatternMatches(p[1..], v) || (v != [] && v[0] == '.' && PatternMatches(p, v[1..]))
    else
      v != [] && ToLower(p[0]) == ToLower(v[0]) && PatternMatches(p[1..], v[1..])
  }

  /** A pattern without `*` matches exactly the values equal to it up to
      the case of ASCII letters. */
  lemma {:induction false} LiteralPattern(p: string, v: string)
    requires Mvg.HasNoStar(p)
    ensures PatternMatches(p, v) <==> SameIgnoringCase(p, v)
    decreases |p|
  {
    if p != [] && v != [] {
      LiteralPattern(p[1..], v[1..]);
      if SameIgnoringCase(p, v) {
        assert forall i :: 0 <= i < |p| - 1 ==> p[1..][i] == p[i + 1] && v[1..][i] == v[i + 1];
      }
      if PatternMatches(p, v) {
        assert ToLower(p[0]) == ToLower(v[0]);
        forall i | 0 <= i < |p|
          ensures ToLower(p[i]) == ToLower(v[i])
        {
          if i > 0 {
            assert p[i] == p[1..][i - 1] && v[i] == v[1..][i - 1];
          }
        }
      }
    }
  }

  predicate AllDots(v: string) {
    forall i :: 0 <= i < |v| ==> v[i] == '.'
  }

  /** The lone pattern `*` matches exactly the values made of dots. */
  lemma {:induction false} StarMatchesDots(v: string)
    ensures PatternMatches("*", v) <==> AllDots(v)
    decreases |v|
  {
    assert "*"[1..] == "";
    if v != [] {
      StarMatchesDots(v[1..]);
      if AllDots(v) {
        assert forall i :: 0 <= i < |v| - 1 ==> v[1..][i] == v[i + 1];
      }
      if AllDots(v[1..]) && v[0] == '.' {
        forall i | 0 <= i < |v|
          ensures v[i] == '.'
        {
          if i > 0 {
            assert v[i] == v[1..][i - 1];
          }
        }
      }
    }
  }

  lemma SameIgnoringCaseCons(a: string, b: string)
    requires |a| == |b| > 0
    ensures SameIgnoringCase(a, b) <==>
            ToLower(a[0]) == ToLower(b[0]) && SameIgnoringCase(a[1..], b[1..])
  {
    if ToLower(a[0]) == ToLower(b[0]) && SameIgnoringCase(a[1..], b[1..]) {
      forall i | 0 <= i < |a|
        ensures ToLower(a[i]) == ToLower(b[i])
      {
        if i > 0 {
          assert a[i] == a[1..][i - 1] && b[i] == b[1..][i - 1];
        }
      }
    }
  }

  /** Star-free text at the head of a pattern consumes exactly as many
      characters of the value, equal up to case. */
  lemma {:induction false} LiteralHead(a: string, r: string, v: string)
    requires Mvg.HasNoStar(a)
    ensures PatternMatches(a + r, v) <==>
            |a| <= |v| && SameIgnoringCase(a, v[..|a|]) && PatternMatches(r, v[|a|..])
    decreases |a|
  {
    if a == [] {
      assert a + r == r && v[..0] == [] && v[0..] == v;
    } else {
      assert a[0] in a;
      assert (a + r)[0] == a[0] && (a + r)[1..] == a[1..] + r;
      if v != [] {
        LiteralHead(a[1..], r, v[1..]);
        if |a| <= |v| {
          SameIgnoringCaseCons(a, v[..|a|]);
          assert v[..|a|][1..] == v[1..][..|a| - 1];
          assert v[|a|..] == v[1..][|a| - 1..];
        }
      }
    }
  }

  /** A `*` at the head of a pattern consumes a run of dots, of any length,
      and the rest of the pattern matches what follows it. */
  lemma {:induction false} StarHead(q: string, w: string)
    ensures PatternMatches(['*'] + q, w) <==>
            exists j :: 0 <= j <= |w| && AllDots(w[..j]) && PatternMatches(q, w[j..])
    decreases |w|
  {
    var p := ['*'] + q;
    assert p[0] == '*' && p[1..] == q;
    if w != [] {
      StarHead(q, w[1..]);
    }
    if PatternMatches(p, w) {
      if PatternMatches(q, w) {
        assert AllDots(w[..0]) && w[0..] == w;
      } else {
        var j :| 0 <= j <= |w[1..]| && AllDots(w[1..][..j]) && PatternMatches(q, w[1..][j..]);
        assert w[1..][j..] == w[j + 1..];
        var u, t := w[..j + 1], w[1..][..j];
        forall k | 0 <= k < |u|
          ensures u[k] == '.'
        {
          if k > 0 {
            assert u[k] == t[k - 1];
          }
        }
        assert AllDots(w[..j + 1]) && PatternMatches(q, w[j + 1..]);
      }
    }
    if exists j :: 0 <= j <= |w| && AllDots(w[..j]) && PatternMatches(q, w[j..]) {
      var j :| 0 <= j <= |w| && AllDots(w[..j]) && PatternMatches(q, w[j..]);
      if j == 0 {
        assert w[0..] == w;
      } else {
        assert w[0] == '.' by {
          assert w[..j][0] == w[0];
        }
        var u, t := w[1..][..j - 1], w[..j];
        forall k | 0 <= k < |u|
          ensures u[k] == '.'
        {
          assert u[k] == t[k + 1];
        }
        assert w[1..][j - 1..] == w[j..];
        assert AllDots(w[1..][..j - 1]) && PatternMatches(q, w[1..][j - 1..]);
      }
    }
  }

  /** The `*` of a match of `a*q`, located. */
  lemma StarAmidTextSplit(a: string, q: string, v: string) returns (i: nat, j: nat)
    requires Mvg.HasNoStar(a) && PatternMatches(a + (['*'] + q), v)
    ensures i <= j <= |v| && PatternMatches(a, v[..i]) &&
            AllDots(v[i..j]) && PatternMatches(q, v[j..])
  {
    LiteralHead(a, ['*'] + q, v);
    i := |a|;
    LiteralPattern(a, v[..i]);
    StarHead(q, v[i..]);
    var k :| 0 <= k <= |v[i..]| && AllDots(v[i..][..k]) && PatternMatches(q, v[i..][k..]);
    j := i + k;
    assert v[i..][..k] == v[i..j] && v[i..][k..] == v[j..];
  }

  lemma StarAmidTextJoin(a: string, q: string, v: string, i: nat, j: nat)
    requires Mvg.HasNoStar(a)
    requires i <= j <= |v| && PatternMatches(a, v[..i])
    requires AllDots(v[i..j]) && PatternMatches(q, v[j..])
    ensures PatternMatches(a + (['*'] + q), v)
  {
    LiteralPattern(a, v[..i]);
    StarHead(q, v[i..]);
    assert v[i..][..j - i] == v[i..j] && v[i..][j - i..] == v[j..];
    assert AllDots(v[i..][..j - i]) && PatternMatches(q, v[i..][j - i..]);
    LiteralHead(a, ['*'] + q, v);
  }

  /** A `*` amid text, the meaning of `*` in general: after star-free text
      `a`, a `*` matches any run of dots `v[i..j]`, and the rest of the
      pattern must match the rest of the value. */
  lemma StarAmidText(a: string, q: string, v: string)
    requires Mvg.HasNoStar(a)
    ensures PatternMatches(a + "*" + q, v) <==>
            exists i, j :: 0 <= i <= j <= |v| && PatternMatches(a, v[..i]) &&
                           AllDots(v[i..j]) && PatternMatches(q, v[j..])
  {
    assert a + "*" + q == a + (['*'] + q);
    if PatternMatches(a + (['*'] + q), v) {
      var i, j := StarAmidTextSplit(a, q, v);
    }
    if exists i, j :: 0 <= i <= j <= |v| && PatternMatches(a, v[..i]) &&
                      AllDots(v[i..j]) && PatternMatches(q, v[j..]) {
      var i, j :| 0 <= i <= j <= |v| && PatternMatches(a, v[..i]) &&
                  AllDots(v[i..j]) && PatternMatches(q, v[j..]);
      StarAmidTextJoin(a, q, v, i, j);
    }
  }

  /** `U*` does not match line `U6`, but does match `u..`: the wildcard
      stands for dots only. */
  lemma StarIsNotAnything()
    ensures !PatternMatches("U*", "U6")
    ensures PatternMatches("U*", "u..")
  {
    assert "U*"[1..] == "*" && "U6"[1..] == "6" && "*"[1..] == "";
    assert !PatternMatches("*", "6") by {
      StarMatchesDots("6");
    }
    assert "u.."[1..] == "..";
    assert PatternMatches("*", "..") by {
      StarMatchesDots("..");
    }
  }

  /** `matches(ld, f)`: both fields must match; an empty filter field
      stands for the pattern `*`. */
  predicate Matches(ld: LineDest, f: LineDest) {
    PatternMatches(if f.line == "" then "*" else f.line, ld.line) &&
    PatternMatches(if f.destination == "" then "*" else f.destination, ld.destination)
  }

  /** Consequence of the dot-only wildcard: the empty filter, which reads
      as "no restriction", matches only pairs whose fields are all dots. */
  lemma EmptyFilterMatchesDotsOnly(ld: LineDest)
    ensures Matches(ld, LineDest("", "")) <==> AllDots(ld.line) && AllDots(ld.destination)
  {
    StarMatchesDots(ld.line);
    StarMatchesDots(ld.destination);
  }

  /** A filter with both fields literal matches the pairs equal to it up
      to case. */
  lemma LiteralFilter(ld: LineDest, f: LineDest)
    requires f.line != "" && f.destination != ""
    requires Mvg.HasNoStar(f.line) && Mvg.HasNoStar(f.destination)
    ensures Matches(ld, f) <==>
              SameIgnoringCase(f.line, ld.line) && SameIgnoringCase(f.destination, ld.destination)
  {
    LiteralPattern(f.line, ld.line);
    LiteralPattern(f.destination, ld.destination);
  }

  predicate AnyMatches(ld: LineDest, filters: seq<LineDest>) {
    exists f :: f in filters && Matches(ld, f)
  }

  // ---------------------------------------------------------------------
  // pills

  datatype Tri = Neutral | Include | Exclude

  /** The state remembered for a pill: `prev[idx] ?? "neutral"`. */
  function PillValue(pillState: map<nat, Tri>, idx: nat): Tri {
    if idx in pillState then pillState[idx] else Neutral
  }

  /** `computePillState(idx)` for a rendered pill. An explicit include or
      exclude is shown as it is; otherwise a matching typed exclude wins
      over a matching typed include. */
  function ComputePillState(idx: nat, pillState: map<nat, Tri>, suggestions: seq<LineDest>,
                            manualIncludes: seq<LineDest>, manualExcludes: seq<LineDest>): (r: Tri)
    requires idx < |suggestions|
    ensures PillValue(pillState, idx) != Neutral ==> r == PillValue(pillState, idx)
    ensures PillValue(pillState, idx) == Neutral ==>
              (r == Exclude <==> AnyMatches(suggestions[idx], manualExcludes))
    ensures PillValue(pillState, idx) == Neutral ==>
              (r == Include <==> !AnyMatches(suggestions[idx], manualExcludes) &&
                                 AnyMatches(suggestions[idx], manualIncludes))
  {
    if idx in pillState && pillState[idx] != Neutral then pillState[idx]
    else
      var ld := suggestions[idx];
      if AnyMatches(ld, manualExcludes) then Exclude
      else if AnyMatches(ld, manualIncludes) then Include
      else Neutral
  }

  /** A typed exclude that matches beats one that includes, unless the pill
      was clicked. */
  lemma TypedExcludeWins(idx: nat, pillState: map<nat, Tri>, suggestions: seq<LineDest>,
                         manualIncludes: seq<LineDest>, manualExcludes: seq<LineDest>, f: LineDest)
    requires idx < |suggestions| && idx !in pillState
    requires f in manualExcludes && Matches(suggestions[idx], f)
    ensures ComputePillState(idx, pillState, suggestions, manualIncludes, manualExcludes) == Exclude
  {
  }

  /** neutral -> include -> exclude -> neutral. */
  function Cycle(t: Tri): (n: Tri)
    ensures n != t
  {
    match t
    case Neutral => Include
    case Include => Exclude
    case Exclude => Neutral
  }

  /** The `onPillClick(idx)` updater: `{ ...prev, [idx]: next }`. */
  function OnPillClick(prev: map<nat, Tri>, idx: nat): (m: map<nat, Tri>)
    ensures m.Keys == prev.Keys + {idx}
    ensures m[idx] == Cycle(PillValue(prev, idx))
    ensures forall k :: k in prev && k != idx ==> m[k] == prev[k]
  {
    prev[idx := Cycle(PillValue(prev, idx))]
  }

  /** Three clicks on a pill bring every pill back to the state it
      showed. */
  lemma ThreeClicks(prev: map<nat, Tri>, idx: nat, suggestions: seq<LineDest>,
                    manualIncludes: seq<LineDest>, manualExcludes: seq<LineDest>)
    ensures var m := OnPillClick(OnPillClick(OnPillClick(prev, idx), idx), idx);
      && (forall k :: PillValue(m, k) == PillValue(prev, k))
      && forall k: nat :: k < |suggestions| ==>
           ComputePillState(k, m, suggestions, manualIncludes, manualExcludes) ==
           ComputePillState(k, prev, suggestions, manualIncludes, manualExcludes)
  {
    var m := OnPillClick(OnPillClick(OnPillClick(prev, idx), idx), idx);
    forall k
      ensures PillValue(m, k) == PillValue(prev, k)
    {
      if k == idx {
        match PillValue(prev, idx)
        case Neutral =>
        case Include =>
        case Exclude =>
      }
    }
  }

  /** One click on a pill no typed filter colours makes it `include`. */
  lemma FirstClickIncludes(prev: map<nat, Tri>, idx: nat, suggestions: seq<LineDest>,
                           manualIncludes: seq<LineDest>, manualExcludes: seq<LineDest>)
    requires idx < |suggestions| && idx !in prev
    ensures ComputePillState(idx, OnPillClick(prev, idx), suggestions, manualIncludes, manualExcludes) == Include
  {
  }

  // ---------------------------------------------------------------------
  // the preview

  /** The suggestions whose pill was explicitly set to `v`, among the first
      `n`, in ascending index order. */
  function Picks(pillState: map<nat, Tri>, suggestions: seq<LineDest>, v: Tri, n: nat): seq<LineDest>
    requires n <= |suggestions|
    decreases n
  {
    if n == 0 then []
    else Picks(pillState, suggestions, v, n - 1) +
         (if n - 1 in pillState && pillState[n - 1] == v then [suggestions[n - 1]] else [])
  }

  /** A suggestion is picked exactly when some pill showing it was set to
      `v`; the picks keep the order of the suggestions. */
  lemma {:induction false} PicksProperties(pillState: map<nat, Tri>, suggestions: seq<LineDest>, v: Tri, n: nat)
    requires n <= |suggestions|
    ensures forall ld :: ld in Picks(pillState, suggestions, v, n) <==>
              exists i :: 0 <= i < n && i in pillState && pillState[i] == v && suggestions[i] == ld
    ensures IsSubsequence(Picks(pillState, suggestions, v, n), suggestions[..n])
    decreases n
  {
    if n == 0 {
    } else {
      var p := Picks(pillState, suggestions, v, n - 1);
      PicksProperties(pillState, suggestions, v, n - 1);
      assert suggestions[..n] == suggestions[..n - 1] + [suggestions[n - 1]];
      if n - 1 in pillState && pillState[n - 1] == v {
        SubsequenceTake(p, suggestions[..n - 1], suggestions[n - 1]);
      } else {
        assert p + [] == p;
        SubsequenceSkip(p, suggestions[..n - 1], suggestions[n - 1]);
      }
    }
  }

  /** Pill states of indices without a suggestion have no effect. */
  lemma {:induction false} PicksIgnoreStrayKeys(pillState: map<nat, Tri>, suggestions: seq<LineDest>, v: Tri, n: nat, stray: nat, t: Tri)
    requires n <= |suggestions| <= stray
    ensures Picks(pillState[stray := t], suggestions, v, n) == Picks(pillState, suggestions, v, n)
    decreases n
  {
    if n > 0 {
      PicksIgnoreStrayKeys(pillState, suggestions, v, n - 1, stray, t);
    }
  }

  /** The preview merge of the page (the `useMemo` body): no preview and no
      URL without a station; otherwise the typed filters followed by the
      clicked pills, in ascending index order, and the parameters
      `configToURL` writes for that configuration. */
  method BuildPreview(config: Config, pillState: map<nat, Tri>, suggestions: seq<LineDest>,
                      manualIncludes: seq<LineDest>, manualExcludes: seq<LineDest>,
                      search: ParseConfig.Params)
    returns (previewConfig: Option<Config>, url: Option<ParseConfig.Params>)
    ensures config.station.id == "" ==> previewConfig == None && url == None
    ensures config.station.id != "" ==>
              previewConfig == Some(config.(
                includeFilters := manualIncludes + Picks(pillState, suggestions, Include, |suggestions|),
                excludeFilters := manualExcludes + Picks(pillState, suggestions, Exclude, |suggestions|)))
    ensures previewConfig.Some? ==> url == Some(ParseConfig.ConfigParams(search, previewConfig.value))
  {
    if config.station.id == "" {
      return None, None;
    }

    var explicitIncludes: seq<LineDest> := [];
    var explicitExcludes: seq<LineDest> := [];
    // Object.entries lists integer keys in ascending order; keys beyond
    // the suggestions have no pill (`if (!ld) return`)
    for i := 0 to |suggestions|
      invariant explicitIncludes == Picks(pillState, suggestions, Include, i)
      invariant explicitExcludes == Picks(pillState, suggestions, Exclude, i)
    {
      if i in pillState {
        var ld := suggestions[i];
        var v := pillState[i];
        if v == Include {
          explicitIncludes := explicitIncludes + [ld];
        }
        if v == Exclude {
          explicitExcludes := explicitExcludes + [ld];
        }
      }
    }

    var merged := config.(
      includeFilters := manualIncludes + explicitIncludes,
      excludeFilters := manualExcludes + explicitExcludes);
    var q := ParseConfig.ConfigToURL(search, merged);
    return Some(merged), Some(q);
  }

  /** A pill clicked to `include` ends up in the preview's include list. */
  lemma ClickedPillInPreview(pillState: map<nat, Tri>, suggestions: seq<LineDest>,
                             manualIncludes: seq<LineDest>, manualExcludes: seq<LineDest>, idx: nat)
    requires idx < |suggestions| && PillValue(pillState, idx) == Include
    ensures suggestions[idx] in manualIncludes + Picks(pillState, suggestions, Include, |suggestions|)
  {
    PicksProperties(pillState, suggestions, Include, |suggestions|);
  }
}
