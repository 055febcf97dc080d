/** String primitives of JavaScript that the core relies on:
    `String.prototype.split` and `Array.prototype.join` on one character,
    `trim`, `parseInt(s, 10)`, and `String(n)` for integers. */
module Text {
  import opened Types
  import opened Seqs

  /** JavaScript WhiteSpace and LineTerminator code points: what `trim`
      removes and what `parseInt` skips. */
  predicate IsJsWhitespace(c: char) {
    var n := c as int;
    n == 0x09 || n == 0x0A || n == 0x0B || n == 0x0C || n == 0x0D ||
    n == 0x20 || n == 0xA0 || n == 0x1680 || (0x2000 <= n <= 0x200A) ||
    n == 0x2028 || n == 0x2029 || n == 0x202F || n == 0x205F ||
    n == 0x3000 || n == 0xFEFF
  }

  /** The characters `.` in a regular expression does not match. */
  predicate IsLineTerminator(c: char) {
    var n := c as int;
    n == 0x0A || n == 0x0D || n == 0x2028 || n == 0x2029
  }

  /** `s` with its leading whitespace removed. */
  function TrimStart(s: string): string
    decreases |s|
  {
    if s != [] && IsJsWhitespace(s[0]) then TrimStart(s[1..]) else s
  }

  /** `!s.trim()`: trimming leaves nothing. */
  predicate IsBlank(s: string) {
    TrimStart(s) == ""
  }

  lemma {:induction false} BlankIffAllWhitespace(s: string)
    ensures IsBlank(s) <==> forall i :: 0 <= i < |s| ==> IsJsWhitespace(s[i])
    decreases |s|
  {
    if s != [] && IsJsWhitespace(s[0]) {
      BlankIffAllWhitespace(s[1..]);
      assert forall i :: 1 <= i < |s| ==> s[i] == s[1..][i - 1];
    }
  }

  // ---------------------------------------------------------------------
  // split / join on a single separator character

  /** `s.split(sep)`: never empty; `"".split(sep)` is `[""]`. */
  function Split(s: string, sep: char): (parts: seq<string>)
    ensures |parts| >= 1
    decreases |s|
  {
    if s == [] then [""]
    else
      var rest := Split(s[1..], sep);
      if s[0] == sep then [""] + rest else [[s[0]] + rest[0]] + rest[1..]
  }

  /** `parts.join(sep)`: `[].join(sep)` is `""`. */
  function Join(parts: seq<string>, sep: char): string
    decreases |parts|
  {
    if parts == [] then ""
    else if |parts| == 1 then parts[0]
    else parts[0] + [sep] + Join(parts[1..], sep)
  }

  lemma {:induction false} SplitPartsAvoidSeparator(s: string, sep: char)
    ensures forall i :: 0 <= i < |Split(s, sep)| ==> sep !in Split(s, sep)[i]
    decreases |s|
  {
    if s != [] {
      SplitPartsAvoidSeparator(s[1..], sep);
    }
  }

  /** Splitting loses nothing: joining the parts gives the string back. */
  lemma {:induction false} JoinSplit(s: string, sep: char)
    ensures Join(Split(s, sep), sep) == s
    decreases |s|
  {
    if s != [] {
      var rest := Split(s[1..], sep);
      JoinSplit(s[1..], sep);
      if s[0] == sep {
        assert Split(s, sep) == [""] + rest;
        assert ([""] + rest)[1..] == rest;
      } else {
        var parts := [[s[0]] + rest[0]] + rest[1..];
        assert parts[1..] == rest[1..];
        if |rest| == 1 {
          assert Join(rest, sep) == rest[0];
        } else {
          assert Join(rest, sep) == rest[0] + [sep] + Join(rest[1..], sep);
        }
        assert s == [s[0]] + s[1..];
      }
    }
  }

  lemma {:induction false} SplitWithoutSeparator(s: string, sep: char)
    requires sep !in s
    ensures Split(s, sep) == [s]
    decreases |s|
  {
    if s != [] {
      SplitWithoutSeparator(s[1..], sep);
      assert [s[0]] + s[1..] == s;
    }
  }

  lemma {:induction false} SplitAtSeparator(a: string, sep: char, rest: string)
    requires sep !in a
    ensures Split(a + [sep] + rest, sep) == [a] + Split(rest, sep)
    decreases |a|
  {
    if a == [] {
      assert a + [sep] + rest == [sep] + rest;
      assert ([sep] + rest)[1..] == rest;
    } else {
      var s := a + [sep] + rest;
      assert s[1..] == a[1..] + [sep] + rest;
      SplitAtSeparator(a[1..], sep, rest);
      assert [a[0]] + a[1..] == a;
    }
  }

  /** Joining parts that avoid the separator can be undone by splitting. */
  lemma {:induction false} SplitJoin(parts: seq<string>, sep: char)
    requires |parts| >= 1
    requires forall i :: 0 <= i < |parts| ==> sep !in parts[i]
    ensures Split(Join(parts, sep), sep) == parts
    decreases |parts|
  {
    if |parts| == 1 {
      SplitWithoutSeparator(parts[0], sep);
    } else {
      SplitJoin(parts[1..], sep);
      SplitAtSeparator(parts[0], sep, Join(parts[1..], sep));
      assert [parts[0]] + parts[1..] == parts;
    }
  }

  // ---------------------------------------------------------------------
  // decimal integers: parseInt(s, 10) and String(n)

  predicate IsDigit(c: char) {
    '0' <= c <= '9'
  }

  function DigitValue(c: char): nat
    requires IsDigit(c)
  {
    (c as int) - ('0' as int)
  }

  function DigitChar(d: nat): char
    requires d < 10
  {
    (('0' as int) + d) as char
  }

  predicate AllDigits(s: string) {
    forall i :: 0 <= i < |s| ==> IsDigit(s[i])
  }

  /** The value of a decimal digit string, most significant digit first. */
  function DigitsValue(ds: string): nat
    requires AllDigits(ds)
    decreases |ds|
  {
    if ds == [] then 0 else DigitsValue(DropLast(ds)) * 10 + DigitValue(Last(ds))
  }

  /** Length of the longest prefix of `s` made of decimal digits. */
  function DigitRunLength(s: string): (n: nat)
    ensures n <= |s|
    decreases |s|
  {
    if s != [] && IsDigit(s[0]) then 1 + DigitRunLength(s[1..]) else 0
  }

  /** `parseInt(s, 10)`, with `NaN` as `None`: skip leading whitespace, take
      an optional sign, then the longest run of decimal digits; no digit at
      all is `NaN`. */
  function ParseIntPrefix(s: string): Option<int> {
    var t := TrimStart(s);
    var negative := t != [] && t[0] == '-';
    var u := if t != [] && (t[0] == '-' || t[0] == '+') then t[1..] else t;
    var n := DigitRunLength(u);
    if n == 0 then None
    else
      assert AllDigits(u[..n]) by { DigitRunIsDigits(u); }
      var v: int := DigitsValue(u[..n]);
      Some(if negative then -v else v)
  }

  lemma {:induction false} DigitRunIsDigits(s: string)
    ensures AllDigits(s[..DigitRunLength(s)])
    decreases |s|
  {
    if s != [] && IsDigit(s[0]) {
      DigitRunIsDigits(s[1..]);
      assert s[..DigitRunLength(s)] == [s[0]] + s[1..][..DigitRunLength(s[1..])];
    }
  }

  /** `String(n)` for a natural number: decimal digits, no leading zero. */
  function NatToString(n: nat): (s: string)
    decreases n
  {
    if n < 10 then [DigitChar(n)] else NatToString(n / 10) + [DigitChar(n % 10)]
  }

  /** `String(i)` for an integer. */
  function IntToString(i: int): string {
    if i < 0 then "-" + NatToString(-i) else NatToString(i)
  }

  lemma {:induction false} NatToStringDigits(n: nat)
    ensures |NatToString(n)| >= 1 && AllDigits(NatToString(n))
    ensures DigitsValue(NatToString(n)) == n
    decreases n
  {
    if n >= 10 {
      NatToStringDigits(n / 10);
      var s := NatToString(n);
      assert DropLast(s) == NatToString(n / 10);
    }
  }

  lemma {:induction false} DigitRunOfDigits(ds: string, rest: string)
    requires AllDigits(ds)
    requires rest == [] || !IsDigit(rest[0])
    ensures DigitRunLength(ds + rest) == |ds|
    decreases |ds|
  {
    if ds == [] {
      assert ds + rest == rest;
    } else {
      assert (ds + rest)[1..] == ds[1..] + rest;
      DigitRunOfDigits(ds[1..], rest);
    }
  }

  /** `parseInt(String(i) + rest, 10) == i` when `rest` does not continue the
      number with another digit. */
  lemma ParseIntOfIntToString(i: int, rest: string)
    requires rest == [] || !IsDigit(rest[0])
    ensures ParseIntPrefix(IntToString(i) + rest) == Some(i)
  {
    var m: nat := if i < 0 then -i else i;
    var u := NatToString(m) + rest;
    NatDigitsThenRest(m, rest);
    if i < 0 {
      assert IntToString(i) + rest == ['-'] + u;
      ParseNegative(u);
    } else {
      assert IntToString(i) + rest == u;
      ParseUnsigned(u);
    }
  }

  /** The digits of `String(m)` followed by a non-digit: the digit run is
      exactly those digits. */
  lemma NatDigitsThenRest(m: nat, rest: string)
    requires rest == [] || !IsDigit(rest[0])
    ensures var u := NatToString(m) + rest;
      && u != [] && IsDigit(u[0])
      && DigitRunLength(u) == |NatToString(m)|
      && AllDigits(u[..DigitRunLength(u)])
      && DigitsValue(u[..DigitRunLength(u)]) == m
  {
    var ds := NatToString(m);
    NatToStringDigits(m);
    var u := ds + rest;
    DigitRunOfDigits(ds, rest);
    assert u[..|ds|] == ds;
    assert u[0] == ds[0];
  }

  /** A string that starts with a digit reads as its leading digit run. */
  lemma ParseUnsigned(u: string)
    requires u != [] && IsDigit(u[0])
    ensures DigitRunLength(u) > 0
    ensures AllDigits(u[..DigitRunLength(u)])
    ensures ParseIntPrefix(u) == Some(DigitsValue(u[..DigitRunLength(u)]))
  {
    DigitRunIsDigits(u);
    assert TrimStart(u) == u;
  }

  /** `-` followed by a digit reads as the negated leading digit run. */
  lemma ParseNegative(u: string)
    requires u != [] && IsDigit(u[0])
    ensures DigitRunLength(u) > 0
    ensures AllDigits(u[..DigitRunLength(u)])
    ensures ParseIntPrefix(['-'] + u) == Some(-(DigitsValue(u[..DigitRunLength(u)]) as int))
  {
    DigitRunIsDigits(u);
    var s := ['-'] + u;
    assert TrimStart(s) == s;
    assert s[1..] == u;
  }

  /** A string that starts with a character other than whitespace, a sign
      or a digit is `NaN`. */
  lemma ParseNonNumeric(u: string)
    requires u != [] && !IsDigit(u[0]) && !IsJsWhitespace(u[0]) && u[0] != '-' && u[0] != '+'
    ensures ParseIntPrefix(u) == None
  {
    assert TrimStart(u) == u;
  }

  /** A string without any decimal digit is `NaN`. */
  lemma {:induction false} ParseIntWithoutDigits(s: string)
    requires forall i :: 0 <= i < |s| ==> !IsDigit(s[i])
    ensures ParseIntPrefix(s) == None
  {
    TrimStartIsSuffix(s);
  }

  lemma {:induction false} TrimStartIsSuffix(s: string)
    ensures exists k :: 0 <= k <= |s| && TrimStart(s) == s[k..]
    decreases |s|
  {
    if s != [] && IsJsWhitespace(s[0]) {
      TrimStartIsSuffix(s[1..]);
      var k :| 0 <= k <= |s[1..]| && TrimStart(s[1..]) == s[1..][k..];
      assert s[1..][k..] == s[k + 1..];
    } else {
      assert s[0..] == s;
    }
  }
}
