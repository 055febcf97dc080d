/** src/lib/utils.ts: the countdown shown next to a departure. Times are
    integer milliseconds since the epoch. */
module TimeFormat {
  import opened Text

  /** `Math.max(Math.floor(diffMs / 1000), 0)`: the whole seconds from
      `from` to `to`, and 0 when `to` is earlier. (Dafny's `/` by a positive
      divisor rounds down, as `Math.floor` does.) */
  function WholeSeconds(from: int, to: int): (t: nat)
    ensures to - from >= 0 ==> t * 1000 <= to - from < t * 1000 + 1000
    ensures to - from < 0 ==> t == 0
  {
    var diffMs := to - from;
    var floored := diffMs / 1000;
    if floored > 0 then floored else 0
  }

  /** `s.padStart(n, c)` for a pad string of one character. */
  function PadStart(s: string, n: nat, c: char): (r: string)
    ensures |r| == if |s| >= n then |s| else n
    ensures r[|r| - |s|..] == s
    ensures forall i :: 0 <= i < |r| - |s| ==> r[i] == c
    decreases n - |s|
  {
    if |s| >= n then s else PadStart([c] + s, n, c)
  }

  /** `formatTimeDiff(from, to)`. */
  function FormatTimeDiff(from: int, to: int): string {
    var totalSeconds := WholeSeconds(from, to);
    var minutes := totalSeconds / 60;
    var seconds := (totalSeconds % 60) / 10 * 10;  // round down to nearest 10
    if minutes > 59 then "> 1h"
    else NatToString(minutes) + ":" + PadStart(NatToString(seconds), 2, '0')
  }

  /** The two-digit seconds field for a multiple of ten below 60. */
  lemma PaddedTens(s: nat)
    requires s < 60 && s % 10 == 0
    ensures PadStart(NatToString(s), 2, '0') == [DigitChar(s / 10), '0']
  {
    var d := s / 10;
    assert s == d * 10 && d <= 5;
    var str := NatToString(s);
    if d == 0 {
      assert str == [DigitChar(0)];
      assert PadStart(str, 2, '0') == PadStart(['0'] + str, 2, '0');
    } else {
      TensDigits(d);
    }
  }

  lemma TensDigits(d: nat)
    requires 1 <= d <= 5
    ensures NatToString(d * 10) == [DigitChar(d), DigitChar(0)]
  {
    var n := d * 10;
    assert n / 10 == d && n % 10 == 0;
    assert NatToString(d) == [DigitChar(d)];
  }

  /** Exactly the differences of an hour or more show `"> 1h"`. */
  lemma OverAnHour(from: int, to: int)
    ensures FormatTimeDiff(from, to) == "> 1h" <==> to - from >= 3600000
  {
    var t := WholeSeconds(from, to);
    if to - from < 3600000 {
      var m := NatToString(t / 60);
      var r := m + ":" + PadStart(NatToString((t % 60) / 10 * 10), 2, '0');
      NatToStringDigits(t / 60);
      assert r[0] == m[0] && IsDigit(m[0]);
      assert r != "> 1h";
    }
  }

  /** Below an hour the output is `m:ss`, where `m * 60 + ss` is the whole
      second difference rounded down to a multiple of ten: `m` has no
      leading zero and `ss` is one of `00, 10, ..., 50`. */
  lemma ClockFace(from: int, to: int, m: nat, s: nat)
    requires to - from < 3600000
    requires s < 60 && s % 10 == 0
    requires m * 60 + s == WholeSeconds(from, to) - WholeSeconds(from, to) % 10
    ensures m <= 59
    ensures FormatTimeDiff(from, to) == NatToString(m) + ":" + [DigitChar(s / 10), '0']
  {
    var t := WholeSeconds(from, to);
    assert t / 60 == m && (t % 60) / 10 * 10 == s;
    PaddedTens(s);
  }

  /** Anything under a second, negative differences included, shows `0:00`. */
  lemma UnderASecond(from: int, to: int)
    requires to - from < 1000
    ensures FormatTimeDiff(from, to) == "0:00"
  {
    ClockFace(from, to, 0, 0);
  }

  /** 95 s away shows `1:30`: 95 rounds down to 90. */
  lemma NinetyFiveSeconds()
    ensures FormatTimeDiff(0, 95000) == "1:30"
  {
    ClockFace(0, 95000, 1, 30);
  }
}
