/** JavaScript string operations the plugin relies on, over strings of characters. */
module Text {

  predicate StartsWith(s: string, p: string) {
    |p| <= |s| && s[..|p|] == p
  }

  predicate EndsWith(s: string, p: string) {
    |p| <= |s| && s[|s| - |p|..] == p
  }

  /** The characters `String.prototype.trim` removes: ECMAScript WhiteSpace and LineTerminator. */
  predicate IsJsSpace(c: char) {
    || c in {'\t', '\n', '\U{B}', '\U{C}', '\r', ' ', '\U{A0}', '\U{1680}'}
    || c in {'\U{2028}', '\U{2029}', '\U{202F}', '\U{205F}', '\U{3000}', '\U{FEFF}'}
    || '\U{2000}' <= c <= '\U{200A}'
  }

  /** `s.trimStart()`: drops the leading white space and nothing else. */
  function TrimStart(s: string): (r: string)
    ensures |r| <= |s| && r == s[|s| - |r|..]
    ensures forall i :: 0 <= i < |s| - |r| ==> IsJsSpace(s[i])
    ensures r != [] ==> !IsJsSpace(r[0])
  {
    if s != [] && IsJsSpace(s[0]) then TrimStart(s[1..]) else s
  }

  /** `s.trimEnd()`: drops the trailing white space and nothing else. */
  function TrimEnd(s: string): (r: string)
    ensures |r| <= |s| && r == s[..|r|]
    ensures forall i :: |r| <= i < |s| ==> IsJsSpace(s[i])
    ensures r != [] ==> !IsJsSpace(r[|r| - 1])
  {
    if s != [] && IsJsSpace(s[|s| - 1]) then TrimEnd(s[..|s| - 1]) else s
  }

  /** `s.trim()`. */
  function Trim(s: string): (r: string)
    ensures |r| <= |s|
    ensures r != [] ==> !IsJsSpace(r[0]) && !IsJsSpace(r[|r| - 1])
  {
    TrimEnd(TrimStart(s))
  }

  /** Trimming twice is trimming once. */
  lemma TrimIdempotent(s: string)
    ensures Trim(Trim(s)) == Trim(s)
  {
    var t := Trim(s);
    assert TrimStart(t) == t;
    assert TrimEnd(t) == t;
  }

  /** A string without white space at either end is its own trim. */
  lemma TrimOfTrimmed(s: string)
    requires s == [] || (!IsJsSpace(s[0]) && !IsJsSpace(s[|s| - 1]))
    ensures Trim(s) == s
  {
    assert TrimStart(s) == s;
  }

  /** `parts.join(sep)`. */
  function Join(parts: seq<string>, sep: string): string {
    if |parts| == 0 then ""
    else if |parts| == 1 then parts[0]
    else parts[0] + sep + Join(parts[1..], sep)
  }

  /** `parts.join('\n')`. */
  function JoinLines(parts: seq<string>): string {
    Join(parts, "\n")
  }

  /** Concatenation of a sequence of sequences. */
  function Flatten<T>(xss: seq<seq<T>>): seq<T> {
    if xss == [] then [] else xss[0] + Flatten(xss[1..])
  }

  /** Joining with a separator can be done in two stages when no group is empty. */
  lemma {:induction false} JoinLinesOfJoins(head: string, groups: seq<seq<string>>)
    requires forall i :: 0 <= i < |groups| ==> groups[i] != []
    ensures JoinLines([head] + MapJoinLines(groups)) == JoinLines([head] + Flatten(groups))
    decreases |groups|
  {
    if groups != [] {
      var g, rest := groups[0], groups[1..];
      JoinLinesOfJoins(JoinLines(g), rest);
      JoinAppend(g, Flatten(rest));
      calc {
        JoinLines([head] + MapJoinLines(groups));
        { JoinCons(head, [JoinLines(g)] + MapJoinLines(rest)); }
        head + "\n" + JoinLines([JoinLines(g)] + MapJoinLines(rest));
        head + "\n" + JoinLines(g + Flatten(rest));
        { JoinCons(head, g + Flatten(rest)); }
        JoinLines([head] + (g + Flatten(rest)));
      }
    }
  }

  /** Joining `x` in front of a nonempty list puts `x` and a line break in front of its join. */
  lemma JoinCons(x: string, t: seq<string>)
    requires t != []
    ensures JoinLines([x] + t) == x + "\n" + JoinLines(t)
  {
    assert ([x] + t)[1..] == t;
  }

  /** `groups.map(g => g.join('\n'))`. */
  function MapJoinLines(groups: seq<seq<string>>): (r: seq<string>)
    ensures |r| == |groups|
    ensures forall i :: 0 <= i < |groups| ==> r[i] == JoinLines(groups[i])
  {
    if groups == [] then [] else [JoinLines(groups[0])] + MapJoinLines(groups[1..])
  }

  /** Joining a nonempty group with a list: the group's joined text followed by the rest. */
  lemma {:induction false} JoinAppend(g: seq<string>, rest: seq<string>)
    requires g != []
    ensures JoinLines([JoinLines(g)] + rest) == JoinLines(g + rest)
  {
    if |g| == 1 {
      assert g + rest == [g[0]] + rest;
    } else {
      JoinAppend(g[1..], rest);
      assert (g + rest)[1..] == g[1..] + rest;
      assert ([JoinLines(g[1..])] + rest)[1..] == rest;
      if rest != [] {
        assert ([JoinLines(g)] + rest)[1..] == rest;
      } else {
        assert [JoinLines(g)] + rest == [JoinLines(g)];
        assert g + rest == g;
      }
    }
  }

  predicate IsAsciiDigit(c: char) {
    '0' <= c <= '9'
  }

  /** A nonempty run of ASCII digits: what `\d+` matches. */
  predicate IsDigits(s: string) {
    |s| > 0 && forall i :: 0 <= i < |s| ==> IsAsciiDigit(s[i])
  }

  /** Length of the run of ASCII digits that starts `s`. */
  function DigitRun(s: string): (n: nat)
    ensures n <= |s|
    ensures forall i :: 0 <= i < n ==> IsAsciiDigit(s[i])
    ensures n < |s| ==> !IsAsciiDigit(s[n])
  {
    if s != [] && IsAsciiDigit(s[0]) then 1 + DigitRun(s[1..]) else 0
  }

  function DigitChar(d: nat): (c: char)
    requires d < 10
    ensures IsAsciiDigit(c) && c as int - '0' as int == d
  {
    ('0' as int + d) as char
  }

  /** `String(n)` for a non-negative integer: its decimal digits without leading zeros. */
  function NatToDecimal(n: nat): (s: string)
    ensures IsDigits(s)
    ensures |s| > 1 ==> s[0] != '0'
  {
    if n < 10 then [DigitChar(n)] else NatToDecimal(n / 10) + [DigitChar(n % 10)]
  }

  function DigitValue(c: char): nat
    requires IsAsciiDigit(c)
  {
    c as int - '0' as int
  }

  /** The number a run of decimal digits denotes. */
  function DecimalValue(s: string): nat
    requires forall i :: 0 <= i < |s| ==> IsAsciiDigit(s[i])
  {
    if s == [] then 0 else DecimalValue(s[..|s| - 1]) * 10 + DigitValue(s[|s| - 1])
  }

  /** Reading back the decimal rendering of `n` gives `n`. */
  lemma {:induction false} DecimalRoundTrip(n: nat)
    ensures DecimalValue(NatToDecimal(n)) == n
  {
    if n >= 10 {
      DecimalRoundTrip(n / 10);
      var s := NatToDecimal(n);
      assert s[..|s| - 1] == NatToDecimal(n / 10);
    }
  }

  /** Distinct numbers render differently. */
  lemma DecimalInjective(m: nat, n: nat)
    requires NatToDecimal(m) == NatToDecimal(n)
    ensures m == n
  {
    DecimalRoundTrip(m);
    DecimalRoundTrip(n);
  }
}
