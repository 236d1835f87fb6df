/**
 * String helpers with Python's semantics: `str.startswith`, `str.endswith`,
 * `str.split(sep)`, `sep.join`, `os.path.basename` / `os.path.join` (POSIX),
 * decimal formatting `str(n)`, `str.zfill(w)` / `f"{n:0wd}"`, and the
 * ordering Python uses to compare two strings.
 */
module Strings {

  predicate StartsWith(s: string, prefix: string) {
    |prefix| <= |s| && s[..|prefix|] == prefix
  }

  predicate EndsWith(s: string, suffix: string) {
    |suffix| <= |s| && s[|s| - |suffix|..] == suffix
  }

  // ---------------------------------------------------------------------------
  // str.split(sep) with an explicit one-character separator, and sep.join
  // ---------------------------------------------------------------------------

  /** `s.split(sep)`: never empty; empty fields are kept ("a__b" has three). */
  function Split(s: string, sep: char): (parts: seq<string>)
    ensures |parts| >= 1
  {
    if s == [] then [""]
    else
      var rest := Split(s[1..], sep);
      if s[0] == sep then [""] + rest else [[s[0]] + rest[0]] + rest[1..]
  }

  /** `sep.join(parts)`. */
  function Join(parts: seq<string>, sep: char): string {
    if |parts| == 0 then ""
    else if |parts| == 1 then parts[0]
    else parts[0] + [sep] + Join(parts[1..], sep)
  }

  /** Splitting and joining again gives back the original text; the parts hold no separator, and there are two or more exactly when `s` has one. */
  lemma JoinSplit(s: string, sep: char)
    ensures Join(Split(s, sep), sep) == s
    ensures forall k :: 0 <= k < |Split(s, sep)| ==> sep !in Split(s, sep)[k]
    ensures sep in s <==> |Split(s, sep)| >= 2
  {
    JoinOfSplit(s, sep);
    SplitParts(s, sep);
  }

  /** Splitting and joining again gives back the original text. */
  lemma {:induction false} JoinOfSplit(s: string, sep: char)
    ensures Join(Split(s, sep), sep) == s
  {
    if s != [] {
      var rest := Split(s[1..], sep);
      JoinOfSplit(s[1..], sep);
      assert s == [s[0]] + s[1..];
      if s[0] == sep {
        assert Split(s, sep) == [""] + rest;
      } else if |rest| > 1 {
        var parts := Split(s, sep);
        assert parts[1..] == rest[1..];
        assert Join(rest, sep) == rest[0] + [sep] + Join(rest[1..], sep);
      }
    }
  }

  /** The parts hold no separator, and there are two or more exactly when `s` has one. */
  lemma {:induction false} SplitParts(s: string, sep: char)
    ensures forall k :: 0 <= k < |Split(s, sep)| ==> sep !in Split(s, sep)[k]
    ensures sep in s <==> |Split(s, sep)| >= 2
  {
    if s != [] {
      var rest := Split(s[1..], sep);
      SplitParts(s[1..], sep);
      assert s == [s[0]] + s[1..];
      if s[0] != sep {
        var parts := Split(s, sep);
        assert parts == [[s[0]] + rest[0]] + rest[1..];
        assert sep !in parts[0];
        assert sep in s <==> sep in s[1..];
      }
    }
  }

  lemma {:induction false} JoinAllButLast(parts: seq<string>, sep: char)
    requires |parts| >= 2
    ensures Join(parts, sep) == Join(parts[..|parts| - 1], sep) + [sep] + parts[|parts| - 1]
  {
    if |parts| > 2 {
      JoinAllButLast(parts[1..], sep);
      assert parts[1..][..|parts| - 2] == parts[..|parts| - 1][1..];
    }
  }

  /** `s.split(sep)[0]` is the text before the first separator (all of `s` if there is none). */
  lemma SplitHead(s: string, sep: char)
    ensures var h := Split(s, sep)[0];
      StartsWith(s, h) && sep !in h && (|h| < |s| ==> s[|h|] == sep)
  {
    JoinSplit(s, sep);
    var parts := Split(s, sep);
    if |parts| >= 2 {
      assert s == parts[0] + ([sep] + Join(parts[1..], sep));
    }
  }

  /**
   * `sep.join(s.split(sep)[:-1])` is the text before the LAST separator,
   * and the empty string when `s` has no separator at all.
   */
  lemma AllButLastPart(s: string, sep: char)
    ensures var parts := Split(s, sep);
      var key := Join(parts[..|parts| - 1], sep);
      && sep !in parts[|parts| - 1]
      && (sep in s ==> s == key + [sep] + parts[|parts| - 1])
      && (sep !in s ==> key == "")
  {
    JoinSplit(s, sep);
    var parts := Split(s, sep);
    if |parts| >= 2 {
      JoinAllButLast(parts, sep);
    }
  }

  lemma PrefixChar(s: string, h: string, i: nat)
    requires StartsWith(s, h) && i < |h|
    ensures h[i] == s[i]
  {
    assert h[i] == s[..|h|][i];
  }

  /** The text before the first '_' of a name that starts with a '_'-free part and a '_'. */
  lemma FirstPart(x: string, rest: string)
    requires '_' !in x
    ensures Split(x + "_" + rest, '_')[0] == x
  {
    var s := x + "_" + rest;
    SplitHead(s, '_');
    var h := Split(s, '_')[0];
    if |h| < |x| {
      assert false;
    }
    if |h| > |x| {
      PrefixChar(s, h, |x|);
      assert false;
    }
    assert h == s[..|h|];
  }

  /** No '_' follows the last one. */
  lemma NoSepAfter(a: string, b: string, i: nat)
    requires '_' !in b && |a| < i < |a| + 1 + |b|
    ensures (a + "_" + b)[i] != '_'
  {
    assert (a + "_" + b)[i] == b[i - |a| - 1];
  }

  /** Text split at its last '_' splits one way only. */
  lemma LastSepUnique(a: string, b: string, c: string, b2: string)
    requires a + "_" + b == c + "_" + b2 && '_' !in b && '_' !in b2
    ensures a == c && b == b2
  {
    var x := a + "_" + b;
    if |a| < |c| {
      NoSepAfter(a, b, |c|);
      assert false;
    } else if |a| > |c| {
      NoSepAfter(c, b2, |a|);
      assert false;
    }
    assert a == x[..|a|] && c == x[..|c|];
    assert b == x[|a| + 1..] && b2 == x[|c| + 1..];
  }

  /** `'_'.join(s.split('_')[:-1])` of `key + "_" + last` is `key` when `last` holds no '_'. */
  lemma KeyBeforeLastSep(key: string, last: string)
    requires '_' !in last
    ensures var parts := Split(key + "_" + last, '_'); Join(parts[..|parts| - 1], '_') == key
  {
    var s := key + "_" + last;
    AllButLastPart(s, '_');
    assert '_' in s by { assert s[|key|] == '_'; }
    var parts := Split(s, '_');
    LastSepUnique(Join(parts[..|parts| - 1], '_'), parts[|parts| - 1], key, last);
  }

  // ---------------------------------------------------------------------------
  // POSIX paths
  // ---------------------------------------------------------------------------

  /** `os.path.basename(p)`: the text after the last '/'. */
  function Basename(p: string): string {
    var parts := Split(p, '/');
    parts[|parts| - 1]
  }

  /** `os.path.join(a, b)` for two components. */
  function PathJoin(a: string, b: string): string {
    if StartsWith(b, "/") then b
    else if a == [] || EndsWith(a, "/") then a + b
    else a + "/" + b
  }

  lemma {:induction false} SplitLastAfterSep(x: string, b: string, sep: char)
    requires sep !in b
    ensures var parts := Split(x + [sep] + b, sep); parts[|parts| - 1] == b
  {
    if x == [] {
      assert [sep] + b == x + [sep] + b;
      SplitNoSep(b, sep);
      assert ([sep] + b)[1..] == b;
    } else {
      SplitLastAfterSep(x[1..], b, sep);
      var tail := x[1..] + [sep] + b;
      assert (x + [sep] + b)[1..] == tail;
      assert tail[|x| - 1] == sep;
      JoinSplit(tail, sep);
    }
  }

  lemma {:induction false} SplitNoSep(b: string, sep: char)
    requires sep !in b
    ensures Split(b, sep) == [b]
  {
    if b != [] {
      SplitNoSep(b[1..], sep);
      assert [b[0]] + b[1..] == b;
    }
  }

  /** Joining a directory and a plain entry name, the basename is that name again. */
  lemma BasenameOfJoin(dir: string, name: string)
    requires name != [] && '/' !in name
    ensures Basename(PathJoin(dir, name)) == name
  {
    assert name[0] in name;
    if dir == [] {
      SplitNoSep(name, '/');
      assert PathJoin(dir, name) == name;
    } else {
      var x := if EndsWith(dir, "/") then dir[..|dir| - 1] else dir;
      assert PathJoin(dir, name) == x + ['/'] + name by {
        if EndsWith(dir, "/") {
          assert dir == x + ['/'];
        }
      }
      SplitLastAfterSep(x, name, '/');
    }
  }

  // ---------------------------------------------------------------------------
  // Decimal numbers: str(n), str(n).zfill(w) == f"{n:0wd}", and parsing back
  // ---------------------------------------------------------------------------

  predicate IsDigit(c: char) {
    '0' <= c <= '9'
  }

  predicate AllDigits(s: string) {
    forall i :: 0 <= i < |s| ==> IsDigit(s[i])
  }

  function Digit(d: nat): (c: char)
    requires d < 10
    ensures IsDigit(c)
  {
    ('0' as int + d) as char
  }

  function DigitValue(c: char): nat
    requires IsDigit(c)
  {
    c as int - '0' as int
  }

  /** `str(n)` for a natural number. */
  function Decimal(n: nat): string
    decreases n
  {
    if n < 10 then [Digit(n)] else Decimal(n / 10) + [Digit(n % 10)]
  }

  /** `s.zfill(width)` for an unsigned digit string. */
  function ZFill(s: string, width: nat): string {
    if |s| >= width then s else seq(width - |s|, _ => '0') + s
  }

  /** `f"{n:0{width}d}"`, which equals `str(n).zfill(width)` for a natural number. */
  function PadNum(n: nat, width: nat): string {
    ZFill(Decimal(n), width)
  }

  /** The value of a digit string, as `int(s)` reads it. */
  function DigitsValue(s: string): nat
    requires AllDigits(s)
  {
    if s == [] then 0 else 10 * DigitsValue(s[..|s| - 1]) + DigitValue(s[|s| - 1])
  }

  function Pow10(k: nat): nat {
    if k == 0 then 1 else 10 * Pow10(k - 1)
  }

  lemma {:induction false} DecimalParses(n: nat)
    ensures |Decimal(n)| >= 1 && AllDigits(Decimal(n))
    ensures DigitsValue(Decimal(n)) == n
    ensures forall k: nat :: n < Pow10(k) ==> |Decimal(n)| <= k || k == 0
    decreases n
  {
    if n >= 10 {
      DecimalParses(n / 10);
      var d := Decimal(n / 10);
      assert Decimal(n) == d + [Digit(n % 10)];
      assert Decimal(n)[..|Decimal(n)| - 1] == d;
      forall k: nat | n < Pow10(k) && k != 0 ensures |Decimal(n)| <= k {
        assert n / 10 < Pow10(k - 1);
      }
    } else {
      forall k: nat | n < Pow10(k) && k != 0 ensures |Decimal(n)| <= k { }
    }
  }

  lemma {:induction false} LeadingZerosIgnored(z: nat, s: string)
    requires AllDigits(s)
    ensures AllDigits(seq(z, _ => '0') + s)
    ensures DigitsValue(seq(z, _ => '0') + s) == DigitsValue(s)
    decreases |s|, z
  {
    var t := seq(z, _ => '0') + s;
    if s == [] {
      assert t == seq(z, _ => '0');
      if z > 0 {
        LeadingZerosIgnored(z - 1, s);
        assert t[..|t| - 1] == seq(z - 1, _ => '0') + s;
      }
    } else {
      LeadingZerosIgnored(z, s[..|s| - 1]);
      assert t[..|t| - 1] == seq(z, _ => '0') + s[..|s| - 1];
    }
  }

  /** Zero-padded numbers parse back to the number: the padding loses nothing. */
  lemma PadNumRoundTrip(n: nat, width: nat)
    ensures AllDigits(PadNum(n, width))
    ensures DigitsValue(PadNum(n, width)) == n
    ensures |PadNum(n, width)| >= width && |PadNum(n, width)| >= 1
    ensures 1 <= width && n < Pow10(width) ==> |PadNum(n, width)| == width
  {
    DecimalParses(n);
    if |Decimal(n)| < width {
      LeadingZerosIgnored(width - |Decimal(n)|, Decimal(n));
    }
  }

  /** Different numbers never get the same padded text. */
  lemma PadNumInjective(a: nat, b: nat, width: nat)
    requires PadNum(a, width) == PadNum(b, width)
    ensures a == b
  {
    PadNumRoundTrip(a, width);
    PadNumRoundTrip(b, width);
  }

  /** `f"{i:0{width}d}"` for any integer: a negative number keeps its sign in front, inside the width. */
  function FormatInt(i: int, width: nat): string {
    if i >= 0 then PadNum(i, width) else "-" + PadNum(-i, if width == 0 then 0 else width - 1)
  }

  /** The formatted text starts with a minus sign exactly for a negative number. */
  lemma FormatIntSign(i: int, width: nat)
    ensures |FormatInt(i, width)| >= 1
    ensures FormatInt(i, width)[0] == '-' <==> i < 0
  {
    if i >= 0 {
      PadNumRoundTrip(i, width);
      assert IsDigit(FormatInt(i, width)[0]);
    }
  }

  /** Different integers never get the same formatted text. */
  lemma FormatIntInjective(a: int, b: int, width: nat)
    requires FormatInt(a, width) == FormatInt(b, width)
    ensures a == b
  {
    FormatIntSign(a, width);
    FormatIntSign(b, width);
    var w := if width == 0 then 0 else width - 1;
    if a >= 0 {
      PadNumInjective(a, b, width);
    } else {
      assert PadNum(-a, w) == FormatInt(a, width)[1..];
      PadNumInjective(-a, -b, w);
    }
  }

  // ---------------------------------------------------------------------------
  // Python's string order: lexicographic by code point, a proper prefix first
  // ---------------------------------------------------------------------------

  predicate StrLess(a: string, b: string) {
    if a == [] then b != []
    else if b == [] then false
    else if a[0] != b[0] then a[0] < b[0]
    else StrLess(a[1..], b[1..])
  }

  lemma {:induction false} StrLessIrreflexive(a: string)
    ensures !StrLess(a, a)
  {
    if a != [] { StrLessIrreflexive(a[1..]); }
  }

  lemma {:induction false} StrLessTransitive(a: string, b: string, c: string)
    requires StrLess(a, b) && StrLess(b, c)
    ensures StrLess(a, c)
  {
    if a != [] && b != [] && c != [] && a[0] == b[0] && b[0] == c[0] {
      StrLessTransitive(a[1..], b[1..], c[1..]);
    }
  }

  lemma {:induction false} StrLessTotal(a: string, b: string)
    requires a != b
    ensures StrLess(a, b) || StrLess(b, a)
  {
    if a != [] && b != [] && a[0] == b[0] {
      assert a == [a[0]] + a[1..] && b == [b[0]] + b[1..];
      StrLessTotal(a[1..], b[1..]);
    }
  }

  /** Python's string order as a value, for `sorted` and `list.sort`. */
  function StrOrder(): (string, string) -> bool {
    (a: string, b: string) => StrLess(a, b)
  }

  lemma StrOrderIsOrder()
    ensures forall a :: !StrOrder()(a, a)
    ensures forall a, b, c :: StrOrder()(a, b) && StrOrder()(b, c) ==> StrOrder()(a, c)
    ensures forall a, b :: a != b ==> StrOrder()(a, b) || StrOrder()(b, a)
  {
    forall a { StrLessIrreflexive(a); }
    forall a, b, c | StrLess(a, b) && StrLess(b, c) { StrLessTransitive(a, b, c); }
    forall a, b | a != b { StrLessTotal(a, b); }
  }
}
