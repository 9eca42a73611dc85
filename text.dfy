/**
  String helpers the organizer relies on: ASCII lower-casing (str.lower),
  the extension split of one path component (os.path.splitext) and the
  decimal renderings str(n) and "{0:02}".format(n).
 */
module Text {

  /** str.lower() restricted to ASCII letters; every name the tables
      compare against is ASCII. */
  function LowerChar(c: char): char
  {
    if 'A' <= c <= 'Z' then (c as int + 32) as char else c
  }

  function Lower(s: string): (r: string)
    ensures |r| == |s|
    ensures forall i :: 0 <= i < |s| ==> r[i] == LowerChar(s[i])
  {
    seq(|s|, i requires 0 <= i < |s| => LowerChar(s[i]))
  }

  /** Index of the last '.' of s, or -1 when s holds none (str.rfind). */
  function LastDot(s: string): (r: int)
    ensures -1 <= r < |s|
    ensures r >= 0 ==> s[r] == '.'
    ensures forall i :: r < i < |s| ==> s[i] != '.'
  {
    if s == [] then -1
    else if s[|s| - 1] == '.' then |s| - 1
    else LastDot(s[..|s| - 1])
  }

  predicate AllDots(s: string)
  {
    forall i :: 0 <= i < |s| ==> s[i] == '.'
  }

  /** True when some '.' of s comes after a character that is not a '.':
      exactly the components that have an extension. */
  predicate HasDotAfterNonDot(s: string)
  {
    exists i, j :: 0 <= i < j < |s| && s[i] != '.' && s[j] == '.'
  }

  /** os.path.splitext applied to one path component: the extension starts
      at the last '.', unless everything before that '.' is a '.' too
      (".bashrc", "..x"), in which case there is no extension. */
  function SplitExt(name: string): (r: (string, string))
    ensures r.0 + r.1 == name
    ensures r.1 != [] <==> HasDotAfterNonDot(name)
    ensures r.1 != [] ==> r.1[0] == '.' && '.' !in r.1[1..]
  {
    var d := LastDot(name);
    if d < 0 then
      (name, [])
    else if AllDots(name[..d]) then
      assert !HasDotAfterNonDot(name) by {
        forall i, j | 0 <= i < j < |name| && name[j] == '.' ensures name[i] == '.' {
          assert name[..d][i] == name[i];
        }
      }
      (name, [])
    else
      var k :| 0 <= k < d && name[..d][k] != '.';
      assert name[k] != '.' && name[d] == '.';
      assert name[d..][1..] == name[d + 1..];
      (name[..d], name[d..])
  }

  /** The split is determined by its dot: a '.' with no '.' after it and a
      non-dot somewhere before it is where the extension starts. */
  lemma SplitExtAt(s: string, d: int, i: int)
    requires 0 <= i < d < |s| && s[i] != '.' && s[d] == '.'
    requires forall x :: d < x < |s| ==> s[x] != '.'
    ensures SplitExt(s) == (s[..d], s[d..])
  {
    assert s[..d][i] == s[i];
  }

  lemma {:induction false} LowerLastDot(s: string)
    ensures LastDot(Lower(s)) == LastDot(s)
  {
    if s != [] {
      assert Lower(s)[..|s| - 1] == Lower(s[..|s| - 1]);
      LowerLastDot(s[..|s| - 1]);
    }
  }

  /** Lower-casing does not move a '.', so it commutes with the split:
      taking the extension and then lower-casing it (as the organizer does)
      is the same as splitting the lower-cased name. */
  lemma LowerSplitExt(name: string)
    ensures SplitExt(Lower(name)) == (Lower(SplitExt(name).0), Lower(SplitExt(name).1))
  {
    var low := Lower(name);
    var d := LastDot(name);
    LowerLastDot(name);
    if d >= 0 {
      assert low[..d] == Lower(name[..d]);
      assert low[d..] == Lower(name[d..]);
      assert AllDots(low[..d]) == AllDots(name[..d]) by {
        assert forall i :: 0 <= i < d ==> (low[..d][i] == '.' <==> name[..d][i] == '.');
      }
    }
  }

  function DigitChar(d: nat): char
    requires d < 10
  {
    ('0' as int + d) as char
  }

  predicate IsDigits(s: string)
  {
    forall i :: 0 <= i < |s| ==> '0' <= s[i] <= '9'
  }

  /** str(n) for a non-negative integer. */
  function Decimal(n: nat): (s: string)
    ensures |s| >= 1 && IsDigits(s)
    ensures '.' !in s
  {
    if n < 10 then [DigitChar(n)] else Decimal(n / 10) + [DigitChar(n % 10)]
  }

  /** The value a string of decimal digits denotes. */
  function DigitsValue(s: string): nat
    requires IsDigits(s)
  {
    if s == [] then 0 else DigitsValue(s[..|s| - 1]) * 10 + (s[|s| - 1] as int - '0' as int)
  }

  lemma {:induction false} DecimalRoundTrip(n: nat)
    ensures DigitsValue(Decimal(n)) == n
  {
    if n >= 10 {
      DecimalRoundTrip(n / 10);
      var s := Decimal(n);
      assert s[..|s| - 1] == Decimal(n / 10);
    }
  }

  lemma DecimalInjective(m: nat, n: nat)
    requires Decimal(m) == Decimal(n)
    ensures m == n
  {
    DecimalRoundTrip(m);
    DecimalRoundTrip(n);
  }

  /** "{0:02}".format(n): at least two digits, padded with a leading '0'. */
  function PadTwo(n: nat): (s: string)
    ensures IsDigits(s)
  {
    if n < 10 then "0" + Decimal(n) else Decimal(n)
  }

  /** The padded rendering reads back as n, and it is exactly two
      characters long for every n below 100 (every month and day). */
  lemma PadTwoRoundTrip(n: nat)
    ensures DigitsValue(PadTwo(n)) == n
    ensures n < 100 ==> |PadTwo(n)| == 2
  {
    DecimalRoundTrip(n);
    var s := PadTwo(n);
    if n < 10 {
      assert s[..|s| - 1] == "0";
    } else if n < 100 {
      assert Decimal(n) == Decimal(n / 10) + [DigitChar(n % 10)];
    }
  }
}
