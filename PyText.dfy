/** Text and path primitives of the Python and JavaScript standard libraries that the
    catalog relies on, stated over Dafny strings (sequences of Unicode scalar values). */
module PyText {

  datatype Option<+T> = None | Some(value: T)

  newtype byte = x: int | 0 <= x < 256
  type Bytes = seq<byte>

  /** The Python exception classes the catalog code raises or catches. */
  datatype ExcKind =
    | TypeError | IndexError | KeyError | ValueError | AttributeError | RuntimeError
    | FileNotFoundError | IsADirectoryError | BadArchive | PasswordRequired | ImageError
    | Exception

  /** A raised exception: its class and the text `str(ex)` gives. */
  datatype Exc = Exc(kind: ExcKind, msg: string)

  /** A call that returns a value or raises. */
  datatype Outcome<+T> = Ok(value: T) | Err(exc: Exc)

  // ---------------------------------------------------------------- characters

  predicate IsAsciiDigit(c: char) { '0' <= c <= '9' }

  /** `str.lower()` restricted to ASCII letters. */
  function LowerChar(c: char): char
  {
    if 'A' <= c <= 'Z' then (c as int + 32) as char else c
  }

  function Lower(s: string): (r: string)
    ensures |r| == |s|
    ensures forall i :: 0 <= i < |s| ==> r[i] == LowerChar(s[i])
  {
    if s == [] then [] else [LowerChar(s[0])] + Lower(s[1..])
  }

  // ---------------------------------------------------------------- digits

  function RunZero(z: int, n: int): (r: Option<int>)
    ensures r.Some? <==> z <= n < z + 10
    ensures r.Some? ==> r.value == z
  {
    if z <= n < z + 10 then Some(z) else None
  }

  /** The zero of the run of decimal digits (general category Nd, the characters
      `str.isdecimal()` accepts) that holds `c`. Every such run is ten consecutive
      code points standing for 0 to 9; the runs below are those of Unicode 15.0,
      the version Python 3.12 carries, in ascending order. */
  function DecimalZero(c: char): (z: Option<int>)
    ensures z.Some? ==> z.value <= c as int < z.value + 10
  {
    var n := c as int;
    if n < 0x660 then RunZero(0x30, n)
    else if n < 0x6F0 then RunZero(0x660, n)
    else if n < 0x7C0 then RunZero(0x6F0, n)
    else if n < 0x966 then RunZero(0x7C0, n)
    else if n < 0x9E6 then RunZero(0x966, n)
    else if n < 0xA66 then RunZero(0x9E6, n)
    else if n < 0xAE6 then RunZero(0xA66, n)
    else if n < 0xB66 then RunZero(0xAE6, n)
    else if n < 0xBE6 then RunZero(0xB66, n)
    else if n < 0xC66 then RunZero(0xBE6, n)
    else if n < 0xCE6 then RunZero(0xC66, n)
    else if n < 0xD66 then RunZero(0xCE6, n)
    else if n < 0xDE6 then RunZero(0xD66, n)
    else if n < 0xE50 then RunZero(0xDE6, n)
    else if n < 0xED0 then RunZero(0xE50, n)
    else if n < 0xF20 then RunZero(0xED0, n)
    else if n < 0x1040 then RunZero(0xF20, n)
    else if n < 0x1090 then RunZero(0x1040, n)
    else if n < 0x17E0 then RunZero(0x1090, n)
    else if n < 0x1810 then RunZero(0x17E0, n)
    else if n < 0x1946 then RunZero(0x1810, n)
    else if n < 0x19D0 then RunZero(0x1946, n)
    else if n < 0x1A80 then RunZero(0x19D0, n)
    else if n < 0x1A90 then RunZero(0x1A80, n)
    else if n < 0x1B50 then RunZero(0x1A90, n)
    else if n < 0x1BB0 then RunZero(0x1B50, n)
    else if n < 0x1C40 then RunZero(0x1BB0, n)
    else if n < 0x1C50 then RunZero(0x1C40, n)
    else if n < 0xA620 then RunZero(0x1C50, n)
    else if n < 0xA8D0 then RunZero(0xA620, n)
    else if n < 0xA900 then RunZero(0xA8D0, n)
    else if n < 0xA9D0 then RunZero(0xA900, n)
    else if n < 0xA9F0 then RunZero(0xA9D0, n)
    else if n < 0xAA50 then RunZero(0xA9F0, n)
    else if n < 0xABF0 then RunZero(0xAA50, n)
    else if n < 0xFF10 then RunZero(0xABF0, n)
    else if n < 0x104A0 then RunZero(0xFF10, n)
    else if n < 0x10D30 then RunZero(0x104A0, n)
    else if n < 0x11066 then RunZero(0x10D30, n)
    else if n < 0x110F0 then RunZero(0x11066, n)
    else if n < 0x11136 then RunZero(0x110F0, n)
    else if n < 0x111D0 then RunZero(0x11136, n)
    else if n < 0x112F0 then RunZero(0x111D0, n)
    else if n < 0x11450 then RunZero(0x112F0, n)
    else if n < 0x114D0 then RunZero(0x11450, n)
    else if n < 0x11650 then RunZero(0x114D0, n)
    else if n < 0x116C0 then RunZero(0x11650, n)
    else if n < 0x11730 then RunZero(0x116C0, n)
    else if n < 0x118E0 then RunZero(0x11730, n)
    else if n < 0x11950 then RunZero(0x118E0, n)
    else if n < 0x11C50 then RunZero(0x11950, n)
    else if n < 0x11D50 then RunZero(0x11C50, n)
    else if n < 0x11DA0 then RunZero(0x11D50, n)
    else if n < 0x11F50 then RunZero(0x11DA0, n)
    else if n < 0x16A60 then RunZero(0x11F50, n)
    else if n < 0x16AC0 then RunZero(0x16A60, n)
    else if n < 0x16B50 then RunZero(0x16AC0, n)
    else if n < 0x1D7CE then RunZero(0x16B50, n)
    else if n < 0x1D7D8 then RunZero(0x1D7CE, n)
    else if n < 0x1D7E2 then RunZero(0x1D7D8, n)
    else if n < 0x1D7EC then RunZero(0x1D7E2, n)
    else if n < 0x1D7F6 then RunZero(0x1D7EC, n)
    else if n < 0x1E140 then RunZero(0x1D7F6, n)
    else if n < 0x1E2F0 then RunZero(0x1E140, n)
    else if n < 0x1E4F0 then RunZero(0x1E2F0, n)
    else if n < 0x1E950 then RunZero(0x1E4F0, n)
    else if n < 0x1FBF0 then RunZero(0x1E950, n)
    else RunZero(0x1FBF0, n)
  }

  /** `str.isdecimal()` on one character. */
  predicate IsDecimal(c: char) { DecimalZero(c).Some? }

  /** The value of a decimal digit, whatever its script. */
  function DecimalDigit(c: char): (d: nat)
    requires IsDecimal(c)
    ensures d < 10
  {
    c as int - DecimalZero(c).value
  }

  /** Characters whose Unicode numeric type is Digit without being Decimal:
      superscripts, subscripts, circled, parenthesised and dotted digits, Ethiopic
      and Kharoshthi digits and the like (Unicode 15.0). `str.isdigit()` accepts
      them; `int()` does not. */
  predicate IsOtherDigit(c: char)
  {
    OtherDigitCode(c as int)
  }

  predicate OtherDigitCode(n: int)
  {
       0xB2 <= n <= 0xB3
    || n == 0xB9
    || 0x1369 <= n <= 0x1371
    || n == 0x19DA
    || n == 0x2070
    || 0x2074 <= n <= 0x2079
    || 0x2080 <= n <= 0x2089
    || 0x2460 <= n <= 0x2468
    || 0x2474 <= n <= 0x247C
    || 0x2488 <= n <= 0x2490
    || n == 0x24EA
    || 0x24F5 <= n <= 0x24FD
    || n == 0x24FF
    || 0x2776 <= n <= 0x277E
    || 0x2780 <= n <= 0x2788
    || 0x278A <= n <= 0x2792
    || 0x10A40 <= n <= 0x10A43
    || 0x10E60 <= n <= 0x10E68
    || 0x11052 <= n <= 0x1105A
    || 0x1F100 <= n <= 0x1F10A
  }

  /** `str.isdigit()` on one character. */
  predicate IsDigit(c: char) { IsDecimal(c) || IsOtherDigit(c) }

  /** `str.isdigit()`: a non-empty string of digits of any script and kind. */
  predicate IsDigits(s: string)
  {
    |s| > 0 && forall i :: 0 <= i < |s| ==> IsDigit(s[i])
  }

  /** `str.isdecimal()`: a non-empty string of decimal digits, the strings `int()`
      reads as a number (the scripts may be mixed). */
  predicate IsDecimals(s: string)
  {
    |s| > 0 && forall i :: 0 <= i < |s| ==> IsDecimal(s[i])
  }

  /** The value of a decimal string (`int(s)` once `IsDecimals(s)` holds). */
  function DigitsValue(s: string): (n: nat)
  {
    if |s| == 0 then 0
    else DigitsValue(s[..|s| - 1]) * 10 + (if IsDecimal(s[|s| - 1]) then DecimalDigit(s[|s| - 1]) else 0)
  }

  // ---------------------------------------------------------------- searching

  /** `str.rfind(c)`: the last index of `c`, or -1. */
  function RFind(s: string, c: char): (r: int)
    ensures -1 <= r < |s|
    ensures r >= 0 ==> s[r] == c
    ensures forall k :: r < k < |s| ==> s[k] != c
  {
    if |s| == 0 then -1
    else if s[|s| - 1] == c then |s| - 1
    else RFind(s[..|s| - 1], c)
  }

  /** JavaScript `s.indexOf(c, from)` for a one-character needle: the first index at or
      after `from` holding `c`, or -1. */
  function IndexOf(s: string, c: char, from: nat): (r: int)
    ensures r == -1 || from <= r < |s|
    ensures r >= 0 ==> s[r] == c
    ensures forall k :: from <= k < |s| && (r == -1 || k < r) ==> s[k] != c
    decreases |s| - from
  {
    if from >= |s| then -1
    else if s[from] == c then from
    else IndexOf(s, c, from + 1)
  }

  /** Searching a suffix is searching the whole string from the suffix's start. */
  lemma {:induction false} IndexOfSuffix(s: string, c: char, i: nat, from: nat)
    requires i <= |s|
    ensures IndexOf(s[i..], c, from) == (var r := IndexOf(s, c, i + from); if r < 0 then -1 else r - i)
    decreases |s| - i - from
  {
    if i + from < |s| && s[i + from] != c {
      IndexOfSuffix(s, c, i, from + 1);
    }
  }

  /** JavaScript `includes` and Python `in` on strings. */
  predicate Contains(s: string, sub: string)
  {
    exists i :: 0 <= i <= |s| - |sub| && OccursAt(s, sub, i)
  }

  predicate OccursAt(s: string, sub: string, i: nat)
  {
    i + |sub| <= |s| && s[i..i + |sub|] == sub
  }

  // ---------------------------------------------------------------- splitting

  /** `s.split(c)` in both JavaScript and Python for a one-character separator: the
      pieces between separators, empty pieces kept. */
  function Split(s: string, c: char): (parts: seq<string>)
    ensures |parts| >= 1
    ensures forall k :: 0 <= k < |parts| ==> c !in parts[k]
    decreases |s|
  {
    var k := IndexOf(s, c, 0);
    if k < 0 then [s] else [s[..k]] + Split(s[k + 1..], c)
  }

  /** Joining pieces back with the separator (`c.join(parts)`). */
  function JoinWith(parts: seq<string>, c: char): string
    requires |parts| >= 1
  {
    if |parts| == 1 then parts[0] else parts[0] + [c] + JoinWith(parts[1..], c)
  }

  /** `split` cuts at the first separator and splits the rest. */
  lemma SplitFirst(s: string, c: char, k: int)
    requires k == IndexOf(s, c, 0) && k >= 0
    ensures Split(s, c) == [s[..k]] + Split(s[k + 1..], c)
  {
  }

  /** `join` puts the separator after the first piece and joins the rest. */
  lemma JoinFirst(head: string, rest: seq<string>, c: char)
    requires |rest| >= 1
    ensures JoinWith([head] + rest, c) == head + [c] + JoinWith(rest, c)
  {
    assert ([head] + rest)[1..] == rest;
  }

  /** Splitting then joining gives the original string back. */
  lemma {:induction false} SplitJoin(s: string, c: char)
    ensures JoinWith(Split(s, c), c) == s
    decreases |s|
  {
    var k := IndexOf(s, c, 0);
    if k >= 0 {
      var head, tail := s[..k], s[k + 1..];
      SplitFirst(s, c, k);
      SplitJoin(tail, c);
      JoinFirst(head, Split(tail, c), c);
      assert head + [c] + tail == s;
    }
  }

  lemma IndexOfIsFirst(s: string, c: char, k: nat)
    requires k < |s| && s[k] == c
    requires forall j :: 0 <= j < k ==> s[j] != c
    ensures IndexOf(s, c, 0) == k
  {
  }

  /** The part before the first `c` (`s.split(c)[0]`). */
  function Prefix(s: string, c: char): (p: string)
    ensures c !in p
    ensures c in s ==> |p| < |s| && s[|p|] == c
    ensures p <= s
  {
    var k := IndexOf(s, c, 0);
    if k < 0 then s else s[..k]
  }

  // ---------------------------------------------------------------- paths

  /** Start of the extension as `os.path.splitext` finds it on POSIX: the last '.',
      provided it comes after the last '/' and the base name has a character other
      than '.' before it; -1 when there is no extension. */
  function ExtStart(p: string): (k: int)
    ensures -1 <= k < |p|
    ensures k >= 0 ==> p[k] == '.'
  {
    var sep := RFind(p, '/');
    var dot := RFind(p, '.');
    if dot > sep && NonDotIn(p, sep + 1, dot) then dot else -1
  }

  /** Some character of `p[lo..hi]` is not a dot. */
  predicate NonDotIn(p: string, lo: int, hi: int)
    requires 0 <= lo && hi <= |p|
    decreases hi - lo
  {
    lo < hi && (p[lo] != '.' || NonDotIn(p, lo + 1, hi))
  }

  /** `os.path.splitext(p)[1]`. */
  function Ext(p: string): string
  {
    var k := ExtStart(p);
    if k >= 0 then p[k..] else ""
  }

  /** `os.path.splitext(p)[0]`. */
  function Stem(p: string): string
  {
    var k := ExtStart(p);
    if k >= 0 then p[..k] else p
  }

  /** splitext splits: stem and extension put back together are the name. */
  lemma StemExt(p: string)
    ensures Stem(p) + Ext(p) == p
    ensures Ext(p) == "" || Ext(p)[0] == '.'
  {
  }

  lemma RFindAbsent(s: string, c: char)
    requires c !in s
    ensures RFind(s, c) == -1
  {
  }

  lemma RFindLast(s: string, c: char, k: nat)
    requires k < |s| && s[k] == c && c !in s[k + 1..]
    ensures RFind(s, c) == k
  {
  }

  /** A name `stem + ext` whose stem has no dot and whose extension is one dot followed
      by no further dot splits into exactly those two parts. */
  lemma SplitExtPlain(stem: string, ext: string)
    requires |stem| > 0 && '.' !in stem && '/' !in stem
    requires |ext| > 0 && ext[0] == '.' && '.' !in ext[1..] && '/' !in ext
    ensures Ext(stem + ext) == ext && Stem(stem + ext) == stem
  {
    var p := stem + ext;
    assert '/' !in p by {
      forall j | 0 <= j < |p| ensures p[j] != '/' {
        if j < |stem| { assert p[j] == stem[j]; } else { assert p[j] == ext[j - |stem|]; }
      }
    }
    RFindAbsent(p, '/');
    assert p[|stem| + 1..] == ext[1..];
    RFindLast(p, '.', |stem|);
    assert p[0] == stem[0] && p[0] != '.';
    assert p[|stem|..] == ext && p[..|stem|] == stem;
  }

  /** The same name, seen as a path: `pathlib` agrees with `splitext` on its suffix. */
  lemma SuffixPlain(stem: string, ext: string)
    requires |stem| > 0 && '.' !in stem && '/' !in stem
    requires |ext| > 1 && ext[0] == '.' && '.' !in ext[1..] && '/' !in ext
    ensures PathName(stem + ext) == stem + ext
    ensures Suffix(stem + ext) == ext
  {
    var p := stem + ext;
    assert '/' !in p by {
      forall j | 0 <= j < |p| ensures p[j] != '/' {
        if j < |stem| { assert p[j] == stem[j]; } else { assert p[j] == ext[j - |stem|]; }
      }
    }
    assert p[|p| - 1] == ext[|ext| - 1];
    assert StripTrailingSlashes(p) == p;
    RFindAbsent(p, '/');
    assert p[0..] == p;
    assert p[|stem| + 1..] == ext[1..];
    RFindLast(p, '.', |stem|);
    assert p[|stem|..] == ext;
  }

  function StripTrailingSlashes(p: string): (q: string)
    ensures q <= p
    ensures |q| == 0 || q[|q| - 1] != '/'
  {
    if |p| > 0 && p[|p| - 1] == '/' then StripTrailingSlashes(p[..|p| - 1]) else p
  }

  /** `pathlib.PurePath(p).name`: the last component. */
  function PathName(p: string): (n: string)
    ensures '/' !in n
  {
    var q := StripTrailingSlashes(p);
    q[RFind(q, '/') + 1..]
  }

  /** `pathlib.PurePath(p).suffix`: from the last '.' of the name, when that dot is
      neither the name's first nor its last character. */
  function Suffix(p: string): string
  {
    var name := PathName(p);
    var i := RFind(name, '.');
    if 0 < i < |name| - 1 then name[i..] else ""
  }

  /** `os.path.join(a, b)` on POSIX. */
  function Join(a: string, b: string): string
  {
    if |b| > 0 && b[0] == '/' then b
    else if |a| == 0 || a[|a| - 1] == '/' then a + b
    else a + "/" + b
  }

  /** White space that Python's `str.strip()` (and so `int()`) removes. */
  predicate PySpace(c: char)
  {
    ('\t' <= c <= '\r') || ('\U{001C}' <= c <= ' ') || c == '\U{0085}' || c == '\U{00A0}'
    || c == '\U{1680}' || ('\U{2000}' <= c <= '\U{200A}') || c == '\U{2028}' || c == '\U{2029}'
    || c == '\U{202F}' || c == '\U{205F}' || c == '\U{3000}'
  }

  function PyStripStart(s: string): (r: string)
    ensures |r| <= |s|
  {
    if |s| > 0 && PySpace(s[0]) then PyStripStart(s[1..]) else s
  }

  function PyStripEnd(s: string): (r: string)
    ensures |r| <= |s|
  {
    if |s| > 0 && PySpace(s[|s| - 1]) then PyStripEnd(s[..|s| - 1]) else s
  }

  function PyStrip(s: string): string
  {
    PyStripEnd(PyStripStart(s))
  }

  // ---------------------------------------------------------------- integers

  function DigitChar(d: nat): (c: char)
    requires d < 10
    ensures IsAsciiDigit(c) && IsDecimal(c) && DecimalDigit(c) == d
  {
    ('0' as int + d) as char
  }

  /** `str(n)` for a natural number. */
  function NatToString(n: nat): (s: string)
    ensures IsDecimals(s)
    ensures DigitsValue(s) == n
    ensures forall i :: 0 <= i < |s| ==> IsAsciiDigit(s[i])
  {
    if n < 10 then [DigitChar(n)]
    else
      var s := NatToString(n / 10) + [DigitChar(n % 10)];
      assert s[..|s| - 1] == NatToString(n / 10);
      s
  }

  /** `str(n)` for any integer. */
  function IntToString(n: int): string
  {
    if n < 0 then "-" + NatToString(-n) else NatToString(n)
  }

  /** `int(s)` on a string: optional surrounding white space, an optional sign and
      decimal digits of any script; `None` where Python raises `ValueError`. */
  function ParseInt(s: string): Option<int>
  {
    var t := PyStrip(s);
    if |t| > 0 && (t[0] == '-' || t[0] == '+') then
      if IsDecimals(t[1..]) then Some(if t[0] == '-' then -(DigitsValue(t[1..]) as int) else DigitsValue(t[1..]))
      else None
    else if IsDecimals(t) then Some(DigitsValue(t))
    else None
  }

  /** `int(str(n)) == n`. */
  lemma ParseIntToString(n: int)
    ensures ParseInt(IntToString(n)) == Some(n)
  {
    var s := IntToString(n);
    assert |s| > 0 && !PySpace(s[0]) && !PySpace(s[|s| - 1]);
    assert PyStripStart(s) == s;
    assert PyStrip(s) == s;
    if n < 0 {
      assert s[1..] == NatToString(-n);
    }
  }

  // ---------------------------------------------------------------- ordering

  /** Python's `<=` on strings: lexicographic by code point. */
  predicate LexLe(a: string, b: string)
    decreases |a|
  {
    |a| == 0 || (|b| > 0 && (a[0] < b[0] || (a[0] == b[0] && LexLe(a[1..], b[1..]))))
  }

  lemma {:induction false} LexLeTotal(a: string, b: string)
    ensures LexLe(a, b) || LexLe(b, a)
    decreases |a|
  {
    if |a| > 0 && |b| > 0 && a[0] == b[0] {
      LexLeTotal(a[1..], b[1..]);
    }
  }

  lemma {:induction false} LexLeTrans(a: string, b: string, c: string)
    requires LexLe(a, b) && LexLe(b, c)
    ensures LexLe(a, c)
    decreases |a|
  {
    if |a| > 0 && a[0] == b[0] && b[0] == c[0] {
      LexLeTrans(a[1..], b[1..], c[1..]);
    }
  }

  lemma {:induction false} LexLeAntisym(a: string, b: string)
    requires LexLe(a, b) && LexLe(b, a)
    ensures a == b
    decreases |a|
  {
    if |a| > 0 {
      LexLeAntisym(a[1..], b[1..]);
      assert a == [a[0]] + a[1..] && b == [b[0]] + b[1..];
    }
  }
}
