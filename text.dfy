/** String primitives the document manager relies on, stated the way Python
    defines them: `str.strip`, `str.lower`, `str.endswith`, `str.rfind`,
    `str.split(sep)`, `sep.join(parts)` and the decimal rendering of a
    positive counter in an f-string. Strings are sequences of characters. */
module Text {

  /** Python's `str.isspace` for a single character: the characters
      `strip()` with no argument removes. */
  predicate IsSpace(c: char) {
    var n := c as int;
    (9 <= n <= 13) || (28 <= n <= 32) || n == 0x85 || n == 0xA0 || n == 0x1680
    || (0x2000 <= n <= 0x200A) || n == 0x2028 || n == 0x2029 || n == 0x202F
    || n == 0x205F || n == 0x3000
  }

  /** Every character of `s` is white space (the empty string included). */
  predicate Blank(s: string) {
    forall i | 0 <= i < |s| :: IsSpace(s[i])
  }

  /** `s.lstrip()`. */
  function StripLeft(s: string): string {
    if s != [] && IsSpace(s[0]) then StripLeft(s[1..]) else s
  }

  /** `s.rstrip()`. */
  function StripRight(s: string): string {
    if s != [] && IsSpace(s[|s| - 1]) then StripRight(s[..|s| - 1]) else s
  }

  /** `s.strip()`. */
  function Strip(s: string): string {
    StripRight(StripLeft(s))
  }

  /** `lstrip` removes a white-space prefix and stops at the first other
      character. */
  lemma {:induction false} StripLeftSpec(s: string)
    ensures |StripLeft(s)| <= |s| && StripLeft(s) == s[|s| - |StripLeft(s)|..]
    ensures Blank(s[..|s| - |StripLeft(s)|])
    ensures StripLeft(s) == [] || !IsSpace(StripLeft(s)[0])
  {
    StripLeftSuffix(s);
    StripLeftBlankPrefix(s);
    StripLeftStops(s);
  }

  lemma {:induction false} StripLeftSuffix(s: string)
    ensures |StripLeft(s)| <= |s| && StripLeft(s) == s[|s| - |StripLeft(s)|..]
  {
    if s != [] && IsSpace(s[0]) {
      StripLeftSuffix(s[1..]);
    }
  }

  lemma {:induction false} StripLeftBlankPrefix(s: string)
    ensures |StripLeft(s)| <= |s| && Blank(s[..|s| - |StripLeft(s)|])
  {
    StripLeftSuffix(s);
    if s != [] && IsSpace(s[0]) {
      var tail := s[1..];
      StripLeftBlankPrefix(tail);
      var k := |s| - |StripLeft(tail)|;
      assert s[..k] == [s[0]] + tail[..k - 1];
      BlankCons(s[0], tail[..k - 1]);
    }
  }

  lemma {:induction false} StripLeftStops(s: string)
    ensures StripLeft(s) == [] || !IsSpace(StripLeft(s)[0])
  {
    if s != [] && IsSpace(s[0]) {
      StripLeftStops(s[1..]);
    }
  }

  lemma BlankCons(c: char, t: string)
    requires IsSpace(c) && Blank(t)
    ensures Blank([c] + t)
  {
    var u := [c] + t;
    forall i | 0 <= i < |u| ensures IsSpace(u[i]) {
      if i > 0 {
        assert u[i] == t[i - 1];
      }
    }
  }

  /** `rstrip` removes a white-space suffix and stops at the last other
      character. */
  lemma {:induction false} StripRightSpec(s: string)
    ensures |StripRight(s)| <= |s| && StripRight(s) == s[..|StripRight(s)|]
    ensures Blank(s[|StripRight(s)|..])
    ensures StripRight(s) == [] || !IsSpace(StripRight(s)[|StripRight(s)| - 1])
  {
    StripRightPrefix(s);
    StripRightBlankSuffix(s);
    StripRightStops(s);
  }

  lemma {:induction false} StripRightPrefix(s: string)
    ensures |StripRight(s)| <= |s| && StripRight(s) == s[..|StripRight(s)|]
  {
    if s != [] && IsSpace(s[|s| - 1]) {
      StripRightPrefix(s[..|s| - 1]);
    }
  }

  lemma {:induction false} StripRightBlankSuffix(s: string)
    ensures |StripRight(s)| <= |s| && Blank(s[|StripRight(s)|..])
  {
    StripRightPrefix(s);
    if s != [] && IsSpace(s[|s| - 1]) {
      var front := s[..|s| - 1];
      StripRightBlankSuffix(front);
      var k := |StripRight(front)|;
      assert s[k..] == front[k..] + [s[|s| - 1]];
      BlankSnoc(front[k..], s[|s| - 1]);
    }
  }

  lemma {:induction false} StripRightStops(s: string)
    ensures StripRight(s) == [] || !IsSpace(StripRight(s)[|StripRight(s)| - 1])
  {
    if s != [] && IsSpace(s[|s| - 1]) {
      StripRightStops(s[..|s| - 1]);
    }
  }

  lemma BlankSnoc(t: string, c: char)
    requires Blank(t) && IsSpace(c)
    ensures Blank(t + [c])
  {
    var u := t + [c];
    forall i | 0 <= i < |u| ensures IsSpace(u[i]) {
      if i < |t| {
        assert u[i] == t[i];
      }
    }
  }

  /** The test the source writes as `if line.strip():` holds exactly when the
      line has a character that is not white space. */
  lemma StripEmptyIffBlank(s: string)
    ensures Strip(s) == "" <==> Blank(s)
  {
    StripLeftSpec(s);
    var t := StripLeft(s);
    StripRightSpec(t);
    assert s == s[..|s| - |t|] + t;
  }

  /** A string with a character other than white space does not strip to
      the empty string. */
  lemma NotBlankStrip(s: string, i: int)
    requires 0 <= i < |s| && !IsSpace(s[i])
    ensures Strip(s) != ""
  {
    StripEmptyIffBlank(s);
  }

  /** Python's `str.lower` restricted to ASCII letters. */
  function LowerChar(c: char): (r: char)
    ensures 'A' <= c <= 'Z' ==> 'a' <= r <= 'z'
    ensures 'A' <= c <= 'Z' ==> r as int - 'a' as int == c as int - 'A' as int
    ensures !('A' <= c <= 'Z') ==> r == c
  {
    if 'A' <= c <= 'Z' then (c as int - 'A' as int + 'a' as int) as char else c
  }

  function Lower(s: string): (r: string)
    ensures |r| == |s|
  {
    seq(|s|, i requires 0 <= i < |s| => LowerChar(s[i]))
  }

  predicate StartsWith(s: string, prefix: string) {
    |prefix| <= |s| && s[..|prefix|] == prefix
  }

  /** `s.endswith(suffix)`: case-sensitive. */
  predicate EndsWith(s: string, suffix: string) {
    |suffix| <= |s| && s[|s| - |suffix|..] == suffix
  }

  /** `s.rfind(c)`: the index of the last occurrence of `c`, or -1. */
  function LastIndexOf(s: string, c: char): (r: int)
    ensures -1 <= r < |s|
    ensures r >= 0 ==> s[r] == c
    ensures forall j | r < j < |s| :: s[j] != c
  {
    if s == [] then -1
    else if s[|s| - 1] == c then |s| - 1
    else LastIndexOf(s[..|s| - 1], c)
  }

  /** The position of the last `c` is the one after which no `c` follows. */
  lemma LastIndexOfAt(s: string, c: char, p: int)
    requires -1 <= p < |s| && (p >= 0 ==> s[p] == c)
    requires forall j | p < j < |s| :: s[j] != c
    ensures LastIndexOf(s, c) == p
  {
  }

  /** `s.split(sep)` with an explicit one-character separator: the pieces
      between occurrences of `sep`, so "" splits into [""]. */
  function Split(s: string, sep: char): (r: seq<string>)
    ensures |r| >= 1
  {
    var k := LastIndexOf(s, sep);
    if k < 0 then [s] else Split(s[..k], sep) + [s[k + 1..]]
  }

  /** A string without the separator is one piece. */
  lemma SplitNone(a: string, sep: char)
    requires sep !in a
    ensures Split(a, sep) == [a]
  {
    LastIndexOfAt(a, sep, -1);
  }

  /** A separator followed by a separator-free tail ends the split with
      that tail. */
  lemma SplitLast(a: string, sep: char, b: string)
    requires sep !in b
    ensures Split(a + [sep] + b, sep) == Split(a, sep) + [b]
  {
    var s := a + [sep] + b;
    forall j | |a| < j < |s| ensures s[j] != sep {
      assert s[j] == b[j - |a| - 1];
    }
    LastIndexOfAt(s, sep, |a|);
    assert s[..|a|] == a && s[|a| + 1..] == b;
  }

  /** No piece of a split holds the separator. */
  lemma {:induction false} SplitPiecesLackSep(s: string, sep: char)
    ensures forall i | 0 <= i < |Split(s, sep)| :: sep !in Split(s, sep)[i]
  {
    var k := LastIndexOf(s, sep);
    if k >= 0 {
      SplitPiecesLackSep(s[..k], sep);
    }
  }

  /** `sep.join(parts)`. */
  function Join(parts: seq<string>, sep: char): string {
    if |parts| == 0 then ""
    else if |parts| == 1 then parts[0]
    else Join(parts[..|parts| - 1], sep) + [sep] + parts[|parts| - 1]
  }

  /** Joining the pieces of a split gives the original string back. */
  lemma {:induction false} JoinSplit(s: string, sep: char)
    ensures Join(Split(s, sep), sep) == s
  {
    var k := LastIndexOf(s, sep);
    if k >= 0 {
      var front := Split(s[..k], sep);
      var parts := front + [s[k + 1..]];
      JoinSplit(s[..k], sep);
      assert parts[..|parts| - 1] == front;
      assert s == s[..k] + [sep] + s[k + 1..];
    }
  }

  /** Splitting a join of separator-free pieces gives the pieces back. */
  lemma {:induction false} SplitJoin(parts: seq<string>, sep: char)
    requires |parts| >= 1
    requires forall i | 0 <= i < |parts| :: sep !in parts[i]
    ensures Split(Join(parts, sep), sep) == parts
  {
    var last := parts[|parts| - 1];
    if |parts| == 1 {
      assert LastIndexOf(last, sep) == -1;
    } else {
      var front := parts[..|parts| - 1];
      var s := Join(front, sep) + [sep] + last;
      var p := |Join(front, sep)|;
      assert s[p] == sep;
      assert forall j | p < j < |s| :: s[j] == last[j - p - 1];
      assert LastIndexOf(s, sep) == p;
      assert s[..p] == Join(front, sep);
      assert s[p + 1..] == last;
      SplitJoin(front, sep);
    }
  }

  function DigitChar(d: nat): (c: char)
    requires d < 10
  {
    ('0' as int + d) as char
  }

  predicate IsDigit(c: char) {
    '0' <= c <= '9'
  }

  /** The decimal rendering of a natural number, as `f"{n}"` gives it. */
  function Decimal(n: nat): (r: string)
    ensures |r| >= 1
    ensures forall i | 0 <= i < |r| :: IsDigit(r[i])
    ensures |r| > 1 || n < 10
    ensures r[0] == '0' ==> n == 0
  {
    if n < 10 then [DigitChar(n)]
    else
      var front := Decimal(n / 10);
      assert (front + [DigitChar(n % 10)])[0] == front[0];
      front + [DigitChar(n % 10)]
  }

  /** Reads a string of decimal digits back as a number. */
  function ParseDecimal(s: string): nat
    requires forall i | 0 <= i < |s| :: IsDigit(s[i])
  {
    if s == [] then 0
    else
      assert IsDigit(s[|s| - 1]);
      10 * ParseDecimal(s[..|s| - 1]) + (s[|s| - 1] as int - '0' as int)
  }

  lemma {:induction false} ParseDecimalOfDecimal(n: nat)
    ensures ParseDecimal(Decimal(n)) == n
  {
    if n >= 10 {
      var r := Decimal(n);
      ParseDecimalOfDecimal(n / 10);
      assert r[..|r| - 1] == Decimal(n / 10);
    }
  }

  /** Distinct counters render as distinct strings. */
  lemma DecimalInjective(j: nat, k: nat)
    requires Decimal(j) == Decimal(k)
    ensures j == k
  {
    ParseDecimalOfDecimal(j);
    ParseDecimalOfDecimal(k);
  }
}
