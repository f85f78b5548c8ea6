/** The handful of Python string and bytes operations that the widgets' parsers
    and the automation script primitives lean on, with Python's semantics written
    out: `str.index`, slicing with negative and out-of-range bounds, `str.replace`,
    `str.split()` and `str.split(sep)`, `int(str)`, `float(str)` acceptance,
    `str(int)`, and `str(bytes)`.

    Bytes are modelled as `seq<char>` with one char per byte (code below 256). */
module PyText {
  import opened Outcomes

  // ---------------------------------------------------------------------------
  // Searching (`str.index`, `in`)
  // ---------------------------------------------------------------------------

  /** `pat` occurs in `s` starting at position `i`. */
  predicate OccursAt(s: string, pat: string, i: int) {
    0 <= i && i + |pat| <= |s| && s[i..i + |pat|] == pat
  }

  /** The first occurrence of `pat` in `s` at or after `k`. */
  function FindFrom(s: string, pat: string, k: nat): (r: Option<nat>)
    decreases |s| - k
    ensures r.Some? ==> k <= r.value && OccursAt(s, pat, r.value)
    ensures r.Some? ==> forall j :: k <= j < r.value ==> !OccursAt(s, pat, j)
    ensures r.None? ==> forall j :: k <= j ==> !OccursAt(s, pat, j)
  {
    if k + |pat| > |s| then None
    else if s[k..k + |pat|] == pat then Some(k)
    else FindFrom(s, pat, k + 1)
  }

  /** Python's `s.index(pat)`: the first position of `pat`, or `None` where
      Python raises `ValueError`. */
  function Find(s: string, pat: string): (r: Option<nat>)
    ensures r.Some? ==> OccursAt(s, pat, r.value)
    ensures r.Some? ==> forall j :: 0 <= j < r.value ==> !OccursAt(s, pat, j)
    ensures r.None? ==> forall j :: !OccursAt(s, pat, j)
  {
    FindFrom(s, pat, 0)
  }

  /** Python's `pat in s` for strings. */
  predicate Contains(s: string, pat: string) {
    Find(s, pat).Some?
  }

  /** Python's `s.index(c)` for a single character. */
  function IndexOf(s: string, c: char): (r: Option<nat>)
    ensures r.Some? ==> r.value < |s| && s[r.value] == c && c !in s[..r.value]
    ensures r.None? <==> c !in s
  {
    var r := Find(s, [c]);
    if r.Some? then
      assert s[r.value..r.value + 1] == [c];
      assert forall j :: 0 <= j < r.value ==> s[j] != c by {
        forall j | 0 <= j < r.value ensures s[j] != c {
          assert !OccursAt(s, [c], j);
          assert s[j..j + 1] == [s[j]];
        }
      }
      r
    else
      assert forall j :: 0 <= j < |s| ==> s[j] != c by {
        forall j | 0 <= j < |s| ensures s[j] != c {
          assert !OccursAt(s, [c], j);
          assert s[j..j + 1] == [s[j]];
        }
      }
      r
  }

  // ---------------------------------------------------------------------------
  // Slicing and indexing
  // ---------------------------------------------------------------------------

  /** How Python normalises one slice bound against a length `n`. */
  function ClampBound(i: int, n: nat): (r: nat)
    ensures r <= n
  {
    if i < 0 then (if i + n < 0 then 0 else i + n)
    else if i > n then n
    else i
  }

  /** Python's `s[a:b]`: never raises; negative bounds count from the end. */
  function Slice<T>(s: seq<T>, a: int, b: int): (r: seq<T>)
    ensures 0 <= a <= b <= |s| ==> r == s[a..b]
    ensures |r| <= |s|
  {
    var lo := ClampBound(a, |s|);
    var hi := ClampBound(b, |s|);
    if lo < hi then s[lo..hi] else []
  }

  /** Python's `s[a:]`. */
  function SliceFrom<T>(s: seq<T>, a: int): (r: seq<T>)
    ensures 0 <= a <= |s| ==> r == s[a..]
  {
    Slice(s, a, |s|)
  }

  /** Python's `s[i]`: negative indices count from the end; out of range is
      `None` (Python raises `IndexError`). */
  function PyIndex<T>(s: seq<T>, i: int): (r: Option<T>)
    ensures 0 <= i < |s| ==> r == Some(s[i])
    ensures -|s| <= i < 0 ==> r == Some(s[|s| + i])
    ensures r.None? <==> !(-|s| <= i < |s|)
  {
    if 0 <= i < |s| then Some(s[i])
    else if -|s| <= i < 0 then Some(s[|s| + i])
    else None
  }

  /** Python's `seq.index(x)` for a list: the first position of `x`. */
  function ListIndex<T(==)>(s: seq<T>, x: T): (r: Option<nat>)
    ensures r.Some? ==> r.value < |s| && s[r.value] == x && x !in s[..r.value]
    ensures r.None? <==> x !in s
  {
    if |s| == 0 then None
    else if s[0] == x then Some(0)
    else
      match ListIndex(s[1..], x)
      case None => None
      case Some(i) =>
        assert s[1..][..i] == s[1..i + 1];
        assert s[..i + 1] == [s[0]] + s[1..i + 1];
        Some(i + 1)
  }

  // ---------------------------------------------------------------------------
  // Replacing
  // ---------------------------------------------------------------------------

  /** Python's `s.replace(pat, "")`: scans left to right and drops every
      non-overlapping occurrence of `pat`. */
  function RemoveAll(s: string, pat: string): (r: string)
    requires |pat| > 0
    decreases |s|
    ensures |r| <= |s|
    ensures (forall j :: !OccursAt(s, pat, j)) ==> r == s
  {
    if |s| == 0 then s
    else if |pat| <= |s| && s[..|pat|] == pat then
      assert OccursAt(s, pat, 0);
      RemoveAll(s[|pat|..], pat)
    else
      assert (forall j :: !OccursAt(s, pat, j)) ==> (forall j :: !OccursAt(s[1..], pat, j)) by {
        forall j | OccursAt(s[1..], pat, j) ensures OccursAt(s, pat, j + 1) {
          assert s[1..][j..j + |pat|] == s[j + 1..j + 1 + |pat|];
        }
      }
      assert s == [s[0]] + s[1..];
      [s[0]] + RemoveAll(s[1..], pat)
  }

  /** Python's `s.replace(c, "")` for one character: keeps every other character. */
  function RemoveChar(s: string, c: char): (r: string)
    ensures c !in r
    ensures forall x :: x != c ==> (x in r <==> x in s)
    ensures c !in s ==> r == s
  {
    if |s| == 0 then s
    else if s[0] == c then RemoveChar(s[1..], c)
    else [s[0]] + RemoveChar(s[1..], c)
  }

  /** Removing a character distributes over concatenation. */
  lemma {:induction false} RemoveCharAppend(a: string, b: string, c: char)
    ensures RemoveChar(a + b, c) == RemoveChar(a, c) + RemoveChar(b, c)
    decreases |a|
  {
    if |a| > 0 {
      assert (a + b)[1..] == a[1..] + b;
      RemoveCharAppend(a[1..], b, c);
    } else {
      assert a + b == b;
    }
  }

  // ---------------------------------------------------------------------------
  // Whitespace, `str.strip()` and `str.split()`
  // ---------------------------------------------------------------------------

  /** Python's `str.isspace()` for one character. */
  predicate IsSpace(c: char) {
    if c <= ' ' then (9 <= c as int <= 13) || (28 <= c as int <= 32) else IsWideSpace(c)
  }

  /** The whitespace characters beyond ASCII. */
  predicate IsWideSpace(c: char) {
    var n := c as int;
    n == 0x85 || n == 0xa0 || n == 0x1680 || (0x2000 <= n <= 0x200a) || n == 0x2028 || n == 0x2029
    || n == 0x202f || n == 0x205f || n == 0x3000
  }

  /** `s` without leading whitespace. */
  function StripLeft(s: string): (r: string)
    ensures |r| <= |s| && r == s[|s| - |r|..]
    ensures |r| > 0 ==> !IsSpace(r[0])
    ensures forall i :: 0 <= i < |s| - |r| ==> IsSpace(s[i])
  {
    if |s| > 0 && IsSpace(s[0]) then StripLeft(s[1..]) else s
  }

  /** `s` without trailing whitespace. */
  function StripRight(s: string): (r: string)
    ensures |r| <= |s| && r == s[..|r|]
    ensures |r| > 0 ==> !IsSpace(r[|r| - 1])
    ensures forall i :: |r| <= i < |s| ==> IsSpace(s[i])
  {
    if |s| > 0 && IsSpace(s[|s| - 1]) then StripRight(s[..|s| - 1]) else s
  }

  /** Python's `s.strip()`. */
  function Strip(s: string): (r: string)
    ensures |r| > 0 ==> !IsSpace(r[0]) && !IsSpace(r[|r| - 1])
    ensures (|s| == 0 || (!IsSpace(s[0]) && !IsSpace(s[|s| - 1]))) ==> r == s
  {
    StripRight(StripLeft(s))
  }

  /** Length of the run of non-whitespace characters that starts `s`. */
  function WordLen(s: string): (n: nat)
    ensures n <= |s|
    ensures forall i :: 0 <= i < n ==> !IsSpace(s[i])
    ensures n < |s| ==> IsSpace(s[n])
  {
    if |s| == 0 || IsSpace(s[0]) then 0 else 1 + WordLen(s[1..])
  }

  /** Python's `s.split()`: the maximal runs of non-whitespace characters. */
  function Words(s: string): (r: seq<string>)
    decreases |s|
    ensures forall k :: 0 <= k < |r| ==> |r[k]| > 0
    ensures forall k, i :: 0 <= k < |r| && 0 <= i < |r[k]| ==> !IsSpace(r[k][i])
  {
    if |s| == 0 then []
    else if IsSpace(s[0]) then Words(s[1..])
    else
      var n := WordLen(s);
      [s[..n]] + Words(s[n..])
  }

  lemma {:induction false} WordLenStopsAtSpace(a: string, rest: string)
    requires WordLen(a) < |a| || (|rest| > 0 && IsSpace(rest[0]))
    ensures WordLen(a + rest) == WordLen(a)
    decreases |a|
  {
    if |a| == 0 {
    } else if IsSpace(a[0]) {
    } else {
      assert (a + rest)[1..] == a[1..] + rest;
      WordLenStopsAtSpace(a[1..], rest);
    }
  }

  /** Splitting at a whitespace character splits the word list there too. */
  lemma {:induction false} WordsAtSpace(a: string, sp: char, b: string)
    requires IsSpace(sp)
    ensures Words(a + [sp] + b) == Words(a) + Words(b)
    decreases |a|
  {
    var s := a + [sp] + b;
    if |a| == 0 {
      assert s == [sp] + b;
      assert s[1..] == b;
      assert Words(s) == Words(b);
    } else if IsSpace(a[0]) {
      assert s[0] == a[0];
      assert s[1..] == a[1..] + [sp] + b;
      WordsAtSpace(a[1..], sp, b);
      assert Words(s) == Words(s[1..]);
      assert Words(a) == Words(a[1..]);
    } else {
      WordsAtSpaceWord(a, sp, b);
    }
  }

  lemma {:induction false} WordsAtSpaceWord(a: string, sp: char, b: string)
    requires IsSpace(sp) && |a| > 0 && !IsSpace(a[0])
    ensures Words(a + [sp] + b) == Words(a) + Words(b)
    decreases |a|, 0
  {
    var rest := [sp] + b;
    var s := a + rest;
    assert a + [sp] + b == s;
    var m := WordLen(a);
    WordLenStopsAtSpace(a, rest);
    WordsHead(s);
    WordsHead(a);
    SplitInside(a, m, rest);
    WordsAtSpace(a[m..], sp, b);
    assert a[m..] + [sp] + b == a[m..] + rest;
  }

  /** A string led by a non-space splits off its first word. */
  lemma WordsHead(s: string)
    requires |s| > 0 && !IsSpace(s[0])
    ensures WordLen(s) > 0
    ensures Words(s) == [s[..WordLen(s)]] + Words(s[WordLen(s)..])
  {
  }

  /** Cutting `a + rest` inside `a`. */
  lemma SplitInside(a: string, m: nat, rest: string)
    requires m <= |a|
    ensures (a + rest)[..m] == a[..m] && (a + rest)[m..] == a[m..] + rest
  {
  }

  /** A non-empty run without whitespace is a single word. */
  lemma {:induction false} WordsOfWord(w: string)
    requires |w| > 0
    requires forall i :: 0 <= i < |w| ==> !IsSpace(w[i])
    ensures Words(w) == [w]
  {
    WordLenAll(w);
    assert w[..|w|] == w;
    assert w[|w|..] == [];
    assert Words(w[|w|..]) == [];
  }

  lemma {:induction false} WordLenAll(w: string)
    requires forall i :: 0 <= i < |w| ==> !IsSpace(w[i])
    ensures WordLen(w) == |w|
    decreases |w|
  {
    if |w| > 0 {
      WordLenAll(w[1..]);
    }
  }

  predicate NoSpace(w: string) {
    forall i :: 0 <= i < |w| ==> !IsSpace(w[i])
  }

  /** Splitting words joined by single spaces gives the words back. */
  lemma {:induction false} WordsOfJoin(ws: seq<string>)
    requires |ws| >= 1
    requires forall k :: 0 <= k < |ws| ==> |ws[k]| > 0 && NoSpace(ws[k])
    ensures Words(Join(ws, ' ')) == ws
    decreases |ws|
  {
    WordsOfWord(ws[0]);
    if |ws| > 1 {
      WordsAtSpace(ws[0], ' ', Join(ws[1..], ' '));
      WordsOfJoin(ws[1..]);
    }
  }

  // ---------------------------------------------------------------------------
  // `str.split(sep)` for one separator character
  // ---------------------------------------------------------------------------

  /** Python's `s.split(c)`: always at least one piece; no piece holds `c`. */
  function SplitOn(s: string, c: char): (r: seq<string>)
    decreases |s|
    ensures |r| >= 1
    ensures forall k :: 0 <= k < |r| ==> c !in r[k]
    ensures Join(r, c) == s
  {
    match IndexOf(s, c)
    case None => [s]
    case Some(i) =>
      assert s == s[..i] + [c] + s[i + 1..];
      [s[..i]] + SplitOn(s[i + 1..], c)
  }

  /** Python's `c.join(parts)`. */
  function Join(parts: seq<string>, c: char): string
    requires |parts| >= 1
  {
    if |parts| == 1 then parts[0] else parts[0] + [c] + Join(parts[1..], c)
  }

  /** Splitting pieces that hold no separator, once joined, gives the pieces back. */
  lemma {:induction false} SplitOnJoin(parts: seq<string>, c: char)
    requires |parts| >= 1
    requires forall k :: 0 <= k < |parts| ==> c !in parts[k]
    ensures SplitOn(Join(parts, c), c) == parts
    decreases |parts|
  {
    var s := Join(parts, c);
    if |parts| == 1 {
      assert IndexOf(s, c).None?;
    } else {
      var rest := Join(parts[1..], c);
      assert s == parts[0] + [c] + rest;
      assert s[|parts[0]|] == c;
      assert s[..|parts[0]|] == parts[0];
      assert IndexOf(s, c) == Some(|parts[0]|);
      assert s[|parts[0]| + 1..] == rest;
      SplitOnJoin(parts[1..], c);
    }
  }

  // ---------------------------------------------------------------------------
  // Decimal digits, `str(int)` and `int(str)`
  // ---------------------------------------------------------------------------

  predicate IsDigit(c: char) { '0' <= c <= '9' }

  predicate AllDigits(s: string) { forall i :: 0 <= i < |s| ==> IsDigit(s[i]) }

  function DigitChar(d: nat): (c: char)
    requires d < 10
    ensures IsDigit(c) && (c as int) - ('0' as int) == d
  {
    (('0' as int) + d) as char
  }

  /** The number a string of decimal digits denotes. */
  function DigitsValue(ds: string): nat
    requires AllDigits(ds)
  {
    if |ds| == 0 then 0
    else DigitsValue(ds[..|ds| - 1]) * 10 + ((ds[|ds| - 1] as int) - ('0' as int))
  }

  /** Python's `str(n)` for a natural number. */
  function ShowNat(n: nat): (r: string)
    ensures |r| > 0 && AllDigits(r)
    ensures |r| > 1 ==> r[0] != '0'
  {
    if n < 10 then [DigitChar(n)] else ShowNat(n / 10) + [DigitChar(n % 10)]
  }

  /** Python's `str(i)` for an integer. */
  function ShowInt(i: int): (r: string)
    ensures |r| > 0 && (IsDigit(r[0]) || r[0] == '-') && IsDigit(r[|r| - 1])
    ensures forall k :: 0 <= k < |r| ==> IsDigit(r[k]) || (k == 0 && r[k] == '-')
  {
    if i < 0 then "-" + ShowNat(-i) else ShowNat(i)
  }

  /** Reading back the digits `str(n)` prints gives `n`. */
  lemma {:induction false} DigitsValueShowNat(n: nat)
    ensures DigitsValue(ShowNat(n)) == n
  {
    if n >= 10 {
      var s := ShowNat(n);
      assert s[..|s| - 1] == ShowNat(n / 10);
      DigitsValueShowNat(n / 10);
    }
  }

  /** Digits with single underscores between them, as Python's `int()` and
      `float()` accept: `1_000` but not `_1`, `1_` or `1__0`. */
  predicate WellGrouped(d: string) {
    && |d| > 0
    && IsDigit(d[0])
    && IsDigit(d[|d| - 1])
    && forall i :: 0 <= i < |d| ==> GroupedAt(d, i)
  }

  /** Position `i` of `d` holds a digit, or an underscore followed by a digit. */
  predicate GroupedAt(d: string, i: nat)
    requires i < |d|
  {
    IsDigit(d[i]) || (d[i] == '_' && i + 1 < |d| && IsDigit(d[i + 1]))
  }

  /** The value of a well-grouped digit string. */
  function GroupedValue(d: string): nat
    requires WellGrouped(d)
  {
    var plain := RemoveChar(d, '_');
    assert AllDigits(plain) by {
      forall i | 0 <= i < |plain| ensures IsDigit(plain[i]) {
        var x := plain[i];
        assert x in plain;
        assert x != '_';
        assert x in d;
        var j :| 0 <= j < |d| && d[j] == x;
        assert GroupedAt(d, j);
      }
    }
    DigitsValue(plain)
  }

  /** Python's `int(s)` for base ten: surrounding whitespace is ignored, one
      optional sign, then well-grouped ASCII digits. `None` is a `ValueError`. */
  function ParseInt(s: string): Option<int> {
    ParseSigned(Strip(s))
  }

  /** `int()` of text with no surrounding whitespace. */
  function ParseSigned(t: string): Option<int> {
    if |t| > 0 && (t[0] == '+' || t[0] == '-') then
      match ParseDigits(t[1..])
      case None => None
      case Some(v) =>
        var n: int := if t[0] == '-' then -(v as int) else v;
        Some(n)
    else ParseDigits(t)
  }

  /** `int()` of an unsigned digit string. */
  function ParseDigits(d: string): Option<nat> {
    if WellGrouped(d) then Some(GroupedValue(d)) else None
  }

  /** `int(str(i)) == i`. */
  lemma ParseShowInt(i: int)
    ensures ParseInt(ShowInt(i)) == Some(i)
  {
    StripShowInt(i);
    if i < 0 {
      ParseNegative(-i);
    } else {
      ParseNonNegative(i);
    }
  }

  /** `str(i)` has no surrounding whitespace. */
  lemma StripShowInt(i: int)
    ensures Strip(ShowInt(i)) == ShowInt(i)
  {
    var s := ShowInt(i);
    assert !IsSpace(s[0]) && !IsSpace(s[|s| - 1]);
  }

  /** `int(str(n)) == n` for a natural number. */
  lemma ParseNonNegative(n: nat)
    ensures ParseSigned(ShowNat(n)) == Some(n)
  {
    GroupedShowNat(n);
  }

  /** `int("-" + str(n)) == -n`. */
  lemma ParseNegative(n: nat)
    requires n > 0
    ensures ParseSigned("-" + ShowNat(n)) == Some(-(n as int))
  {
    var t := "-" + ShowNat(n);
    assert t[1..] == ShowNat(n);
    GroupedShowNat(n);
  }

  /** `int()` of plain decimal digits, leading zeros included, is the
      number they denote: `int("05") == 5`. */
  lemma ParseAllDigits(d: string)
    requires |d| > 0 && AllDigits(d)
    ensures ParseInt(d) == Some(DigitsValue(d))
  {
    DigitsStripped(d);
    DigitsGrouped(d);
    assert ParseSigned(d) == ParseDigits(d);
  }

  lemma DigitsStripped(d: string)
    requires |d| > 0 && AllDigits(d)
    ensures Strip(d) == d && d[0] != '+' && d[0] != '-'
  {
    assert IsDigit(d[0]) && IsDigit(d[|d| - 1]);
  }

  lemma DigitsGrouped(d: string)
    requires |d| > 0 && AllDigits(d)
    ensures WellGrouped(d) && GroupedValue(d) == DigitsValue(d)
  {
    assert forall i :: 0 <= i < |d| ==> GroupedAt(d, i);
    assert '_' !in d;
    assert RemoveChar(d, '_') == d;
  }

  /** The digits `str(n)` prints are well grouped and denote `n`. */
  lemma GroupedShowNat(n: nat)
    ensures WellGrouped(ShowNat(n)) && GroupedValue(ShowNat(n)) == n
  {
    var d := ShowNat(n);
    assert '_' !in d;
    assert RemoveChar(d, '_') == d;
    DigitsValueShowNat(n);
  }

  /** Python's `"".join(filter(str.isdigit, s))`, for ASCII digits. */
  function FilterDigits(s: string): (r: string)
    ensures AllDigits(r)
    ensures |r| <= |s|
    ensures forall c :: c in r <==> c in s && IsDigit(c)
  {
    if |s| == 0 then s
    else if IsDigit(s[0]) then [s[0]] + FilterDigits(s[1..])
    else FilterDigits(s[1..])
  }

  // ---------------------------------------------------------------------------
  // `float(s)` acceptance
  // ---------------------------------------------------------------------------

  function LowerAscii(s: string): (r: string)
    ensures |r| == |s|
  {
    if |s| == 0 then s
    else [if 'A' <= s[0] <= 'Z' then ((s[0] as int) + 32) as char else s[0]] + LowerAscii(s[1..])
  }

  /** A mantissa: digits, optionally a point, optionally more digits, with at
      least one digit on some side of the point. */
  predicate IsMantissa(m: string) {
    match IndexOf(m, '.')
    case None => WellGrouped(m)
    case Some(p) =>
      var whole := m[..p];
      var frac := m[p + 1..];
      && (|whole| == 0 || WellGrouped(whole))
      && (|frac| == 0 || WellGrouped(frac))
      && (|whole| > 0 || |frac| > 0)
  }

  /** An exponent after `e`/`E`: an optional sign and digits. */
  predicate IsExponent(x: string) {
    if |x| > 0 && (x[0] == '+' || x[0] == '-') then WellGrouped(x[1..]) else WellGrouped(x)
  }

  /** Whether Python's `float(s)` accepts the (ASCII) text `s`: surrounding
      whitespace and then one sign are dropped first. */
  predicate IsPyFloat(s: string) {
    IsUnsignedFloat(DropSign(Strip(s)))
  }

  /** `bytes.isspace()` for one byte: only space and the five ASCII
      control whitespace bytes, unlike `str.isspace()`. */
  predicate IsByteSpace(c: char) {
    c == ' ' || 9 <= c as int <= 13
  }

  /** `b` without leading ASCII whitespace. */
  function StripBytesLeft(b: string): (r: string)
    ensures |r| <= |b| && r == b[|b| - |r|..]
    ensures |r| > 0 ==> !IsByteSpace(r[0])
    ensures forall i :: 0 <= i < |b| - |r| ==> IsByteSpace(b[i])
  {
    if |b| > 0 && IsByteSpace(b[0]) then StripBytesLeft(b[1..]) else b
  }

  /** `b` without trailing ASCII whitespace. */
  function StripBytesRight(b: string): (r: string)
    ensures |r| <= |b| && r == b[..|r|]
    ensures |r| > 0 ==> !IsByteSpace(r[|r| - 1])
    ensures forall i :: |r| <= i < |b| ==> IsByteSpace(b[i])
  {
    if |b| > 0 && IsByteSpace(b[|b| - 1]) then StripBytesRight(b[..|b| - 1]) else b
  }

  /** Whether Python's `float(b)` accepts the bytes `b`: only ASCII
      whitespace is dropped around the literal. */
  predicate IsBytesFloat(b: string) {
    IsUnsignedFloat(DropSign(StripBytesRight(StripBytesLeft(b))))
  }

  /** On text with no whitespace at either end, `float()` of the bytes and
      of the `str` agree. */
  lemma BytesFloatBare(t: string)
    requires |t| > 0 && !IsSpace(t[0]) && !IsSpace(t[|t| - 1])
    ensures IsBytesFloat(t) == IsPyFloat(t)
  {
    assert !IsByteSpace(t[0]) && !IsByteSpace(t[|t| - 1]);
    assert StripBytesRight(StripBytesLeft(t)) == t;
    assert Strip(t) == t;
  }

  /** `float(b)` rejects a number padded with a byte that `str.isspace()`
      counts as whitespace but `bytes.isspace()` does not, while `float()`
      of the same text as `str` accepts it. */
  lemma BytesFloatKeepsSeparator(t: string)
    requires t == [28 as char, '5']
    ensures IsPyFloat(t) && !IsBytesFloat(t)
  {
    StrFloatPadded(t);
    BytesFloatPadded(t);
  }

  lemma StrFloatPadded(t: string)
    requires t == [28 as char, '5']
    ensures IsPyFloat(t)
  {
    var u := t[1..];
    assert t == [t[0]] + u;
    PaddedStrip(t[0], u);
    NatIsFloat(5);
    assert ShowNat(5) == u;
  }

  /** `strip()` removes one leading whitespace character from text that
      has none at either end of its own. */
  lemma PaddedStrip(c: char, u: string)
    requires IsSpace(c) && |u| > 0 && !IsSpace(u[0]) && !IsSpace(u[|u| - 1])
    ensures Strip([c] + u) == u
  {
    assert ([c] + u)[1..] == u;
    assert StripLeft([c] + u) == u;
  }

  lemma BytesFloatPadded(t: string)
    requires t == [28 as char, '5']
    ensures !IsBytesFloat(t)
  {
    assert !IsByteSpace(t[0]) && !IsByteSpace(t[1]);
    assert StripBytesRight(StripBytesLeft(t)) == t;
    assert DropSign(t) == t;
    assert LowerAscii(t) == t by {
      assert LowerAscii(t[1..]) == t[1..];
    }
    assert !IsSpecialName(t) by {
      assert t[0] != "inf"[0] && t[0] != "nan"[0];
    }
    assert IndexOf(t, 'e').None? && IndexOf(t, '.').None?;
    assert !IsDigit(t[0]);
  }

  /** Decimal digits are a float as bytes too. */
  lemma NatIsBytesFloat(n: nat)
    ensures IsBytesFloat(ShowNat(n))
  {
    NatIsFloat(n);
    var t := ShowNat(n);
    assert IsDigit(t[0]) && IsDigit(t[|t| - 1]);
    BytesFloatBare(t);
  }

  function DropSign(t: string): (r: string)
    ensures |t| > 0 && t[0] != '+' && t[0] != '-' ==> r == t
  {
    if |t| > 0 && (t[0] == '+' || t[0] == '-') then t[1..] else t
  }

  /** An unsigned float literal: a special value in any letter case, or a
      mantissa with an optional exponent after the first `e`/`E`. */
  predicate IsUnsignedFloat(u: string) {
    var low := LowerAscii(u);
    if IsSpecialName(low) then true
    else
      match IndexOf(low, 'e')
      case None => IsMantissa(u)
      case Some(e) => IsMantissa(u[..e]) && IsExponent(u[e + 1..])
  }

  /** The special values `float()` reads, once lower-cased. */
  predicate IsSpecialName(low: string) {
    low == "inf" || low == "infinity" || low == "nan"
  }

  /** Text led by a digit names no special value. */
  lemma DigitLedNotSpecial(t: string)
    requires |t| > 0 && IsDigit(t[0])
    ensures !IsSpecialName(t)
  {
    assert t[0] != "inf"[0] && t[0] != "nan"[0];
  }

  /** Text with no surrounding whitespace that starts with a digit is a
      float exactly when its unsigned reading is. */
  lemma BareFloat(s: string)
    requires |s| > 0 && IsDigit(s[0]) && !IsSpace(s[|s| - 1])
    ensures IsPyFloat(s) == IsUnsignedFloat(s)
  {
    BareText(s);
  }

  lemma BareText(s: string)
    requires |s| > 0 && IsDigit(s[0]) && !IsSpace(s[|s| - 1])
    ensures DropSign(Strip(s)) == s
  {
    assert !IsSpace(s[0]);
  }

  /** Lower-casing leaves digits and points alone. */
  lemma {:induction false} LowerAsciiPlain(d: string)
    requires forall i :: 0 <= i < |d| ==> IsDigit(d[i]) || d[i] == '.'
    ensures LowerAscii(d) == d
    decreases |d|
  {
    if |d| > 0 {
      LowerAsciiPlain(d[1..]);
    }
  }

  /** `float(str(n))` is accepted. */
  lemma NatIsFloat(n: nat)
    ensures IsPyFloat(ShowNat(n))
  {
    GroupedShowNat(n);
    DigitsAreFloat(ShowNat(n));
  }

  /** Text of digits and points, led by a digit and holding no `e`, is a
      float when it is a mantissa. */
  lemma PlainFloat(d: string)
    requires |d| > 0 && IsDigit(d[0]) && DigitsOrPoint(d) && IsMantissa(d)
    ensures IsPyFloat(d)
  {
    assert IsDigit(d[|d| - 1]) || d[|d| - 1] == '.';
    BareFloat(d);
    PlainUnsigned(d);
  }

  lemma PlainUnsigned(d: string)
    requires |d| > 0 && IsDigit(d[0]) && DigitsOrPoint(d) && IsMantissa(d)
    ensures IsUnsignedFloat(d)
  {
    LowerAsciiPlain(d);
    DigitLedNotSpecial(d);
    assert 'e' !in d;
  }

  /** Well-grouped plain digits are a float literal. */
  lemma DigitsAreFloat(d: string)
    requires AllDigits(d) && WellGrouped(d)
    ensures IsPyFloat(d)
  {
    assert '.' !in d;
    assert IsMantissa(d);
    PlainFloat(d);
  }

  /** Lower-casing leaves text without capital letters alone. */
  lemma {:induction false} LowerAsciiNoCapitals(d: string)
    requires forall i :: 0 <= i < |d| ==> !('A' <= d[i] <= 'Z')
    ensures LowerAscii(d) == d
    decreases |d|
  {
    if |d| > 0 {
      LowerAsciiNoCapitals(d[1..]);
    }
  }

  /** A plain mantissa `w.f`, both sides digits. */
  lemma PointMantissa(w: string, f: string, m: string)
    requires |w| > 0 && |f| > 0 && AllDigits(w) && AllDigits(f) && m == w + "." + f
    ensures IsMantissa(m)
  {
    assert '.' !in w;
    IndexOfFirst(w, '.', f);
    assert m[..|w|] == w && m[|w| + 1..] == f;
  }

  /** `float()` accepts `w.f`. */
  lemma PointIsFloat(w: string, f: string, s: string)
    requires |w| > 0 && |f| > 0 && AllDigits(w) && AllDigits(f) && s == w + "." + f
    ensures IsPyFloat(s)
  {
    PointMantissa(w, f, s);
    assert s[0] == w[0];
    assert DigitsOrPoint(s);
    PlainFloat(s);
  }

  /** `float()` accepts `w.fe+x`, as `'{:.2e}'`-style text is written. */
  lemma ScientificIsFloat(w: string, f: string, x: string, s: string)
    requires |w| > 0 && |f| > 0 && |x| > 0 && AllDigits(w) && AllDigits(f) && AllDigits(x)
    requires s == w + "." + f + "e+" + x
    ensures IsPyFloat(s)
  {
    var m := w + "." + f;
    ScientificText(w, f, x, s);
    PointNoLetter(w, f);
    PointMantissa(w, f, m);
    BareFloat(s);
    ScientificTail(m, x, s);
  }

  /** A mantissa without `e`, then `e+` and digits, is an unsigned float. */
  lemma ScientificTail(m: string, x: string, s: string)
    requires 'e' !in m && IsMantissa(m) && |x| > 0 && AllDigits(x)
    requires s == m + "e+" + x && LowerAscii(s) == s && IsDigit(s[0])
    ensures IsUnsignedFloat(s)
  {
    ScientificCut(m, x, s);
    ScientificUnsigned(|m|, x, s);
  }

  lemma ScientificUnsigned(e: nat, x: string, s: string)
    requires |s| > e && IsMantissa(s[..e]) && |x| > 0 && AllDigits(x)
    requires LowerAscii(s) == s && IsDigit(s[0])
    requires IndexOf(s, 'e') == Some(e)
    requires s[e + 1..] == "+" + x
    ensures IsUnsignedFloat(s)
  {
    SignedExponent(x);
    DigitLedNotSpecial(s);
    UnsignedAtE(s, e);
  }

  /** Past the special names, an unsigned float with an `e` is a mantissa
      before it and an exponent after it. */
  lemma UnsignedAtE(u: string, e: nat)
    requires e < |u| && LowerAscii(u) == u && !IsSpecialName(u) && IndexOf(u, 'e') == Some(e)
    ensures IsUnsignedFloat(u) == (IsMantissa(u[..e]) && IsExponent(u[e + 1..]))
  {
  }

  lemma SignedExponent(x: string)
    requires |x| > 0 && AllDigits(x)
    ensures IsExponent("+" + x)
  {
    assert ("+" + x)[1..] == x;
  }

  lemma ScientificText(w: string, f: string, x: string, s: string)
    requires |w| > 0 && |f| > 0 && |x| > 0 && AllDigits(w) && AllDigits(f) && AllDigits(x)
    requires s == w + "." + f + "e+" + x
    ensures IsDigit(s[0]) && !IsSpace(s[|s| - 1])
    ensures LowerAscii(s) == s
  {
    assert s[0] == w[0] && s[|s| - 1] == x[|x| - 1];
    assert forall i :: 0 <= i < |s| ==> !('A' <= s[i] <= 'Z');
    LowerAsciiNoCapitals(s);
  }

  lemma PointNoLetter(w: string, f: string)
    requires AllDigits(w) && AllDigits(f)
    ensures 'e' !in w + "." + f
  {
    var m := w + "." + f;
    forall i | 0 <= i < |m| ensures m[i] != 'e' {
      if i < |w| {
        assert m[i] == w[i];
      } else if i > |w| {
        assert m[i] == f[i - |w| - 1];
      }
    }
  }

  lemma ScientificCut(m: string, x: string, s: string)
    requires 'e' !in m && s == m + "e+" + x
    ensures IndexOf(s, 'e') == Some(|m|)
    ensures s[..|m|] == m && s[|m| + 1..] == "+" + x
  {
    assert s == m + ['e'] + ("+" + x);
    IndexOfFirst(m, 'e', "+" + x);
  }

  // ---------------------------------------------------------------------------
  // ASCII and `str(bytes)`
  // ---------------------------------------------------------------------------

  predicate IsAscii(s: string) { forall i :: 0 <= i < |s| ==> (s[i] as int) < 128 }

  /** A byte Python's `repr` prints as itself (printable ASCII). */
  predicate Printable(c: char) { 32 <= (c as int) < 127 }

  function HexDigit(v: nat): char
    requires v < 16
  {
    "0123456789abcdef"[v]
  }

  /** The quote Python's bytes repr uses: double quotes only when the bytes
      hold a single quote and no double quote. */
  function ReprQuote(b: string): char {
    if '\'' in b && '"' !in b then '"' else '\''
  }

  /** How one byte appears inside the quotes of `repr(bytes)`. */
  function EscapeByte(c: char, q: char): string {
    if c == '\\' then "\\\\"
    else if c == q then ['\\', q]
    else if c == '\t' then "\\t"
    else if c == '\n' then "\\n"
    else if c == '\r' then "\\r"
    else if Printable(c) then [c]
    else
      var v := (c as int) % 256;
      ['\\', 'x', HexDigit(v / 16), HexDigit(v % 16)]
  }

  function EscapeBytes(b: string, q: char): string {
    if |b| == 0 then "" else EscapeByte(b[0], q) + EscapeBytes(b[1..], q)
  }

  /** Python's `str(b)` for a bytes object `b`: `b'...'` with escapes. */
  function BytesRepr(b: string): (r: string)
    ensures |r| >= 3 && r[0] == 'b' && r[1] == r[|r| - 1] == ReprQuote(b)
  {
    var q := ReprQuote(b);
    "b" + [q] + EscapeBytes(b, q) + [q]
  }

  lemma {:induction false} EscapeBytesAppend(a: string, b: string, q: char)
    ensures EscapeBytes(a + b, q) == EscapeBytes(a, q) + EscapeBytes(b, q)
    decreases |a|
  {
    if |a| == 0 {
      assert a + b == b;
    } else {
      assert (a + b)[0] == a[0];
      assert (a + b)[1..] == a[1..] + b;
      EscapeBytesAppend(a[1..], b, q);
    }
  }

  /** Printable bytes other than the backslash and the quote are not escaped. */
  lemma {:induction false} EscapeBytesPlain(b: string, q: char)
    requires forall i :: 0 <= i < |b| ==> Printable(b[i]) && b[i] != '\\' && b[i] != q
    ensures EscapeBytes(b, q) == b
    decreases |b|
  {
    if |b| > 0 {
      EscapeBytesPlain(b[1..], q);
    }
  }

  /** Digits and decimal points only. */
  predicate DigitsOrPoint(t: string) {
    forall i :: 0 <= i < |t| ==> IsDigit(t[i]) || t[i] == '.'
  }

  /** Every character is printable, and neither a backslash nor a quote. */
  predicate Plain(s: string) {
    forall i :: 0 <= i < |s| ==> Printable(s[i]) && s[i] != '\\' && s[i] != '\''
  }

  lemma PlainAppend(x: string, y: string)
    requires Plain(x) && Plain(y)
    ensures Plain(x + y)
  {
    forall i | 0 <= i < |x + y| ensures Printable((x + y)[i]) && (x + y)[i] != '\\' && (x + y)[i] != '\'' {
      if i >= |x| {
        assert (x + y)[i] == y[i - |x|];
      }
    }
  }

  lemma PlainDigits(t: string)
    requires DigitsOrPoint(t)
    ensures Plain(t)
  {
  }

  /** `str()` of printable text without quotes or backslashes, then CR. */
  lemma ReprPlainCr(head: string)
    requires Plain(head)
    ensures BytesRepr(head + "\r") == "b'" + head + "\\r'"
  {
    var b := head + "\r";
    assert '\'' !in b by {
      forall i | 0 <= i < |b| ensures b[i] != '\'' {
        if i < |head| {
          assert b[i] == head[i];
        }
      }
    }
    var q := ReprQuote(b);
    assert q == '\'';
    EscapeBytesAppend(head, "\r", q);
    EscapeBytesPlain(head, q);
  }

  /** A character not in `a` is found in `a + b` where it is found in `b`,
      shifted by `|a|`. */
  lemma IndexOfAfter(a: string, b: string, c: char)
    requires c !in a
    ensures IndexOf(a + b, c) == if c in b then Some(|a| + IndexOf(b, c).value) else None
  {
    var s := a + b;
    if c in b {
      var k := IndexOf(b, c).value;
      assert s[|a| + k] == c;
      assert s[..|a| + k] == a + b[..k];
    } else {
      assert c !in s;
    }
  }

  /** A character in `a` is found in `a + b` where it is found in `a`. */
  lemma IndexOfWithin(a: string, b: string, c: char)
    requires c in a
    ensures IndexOf(a + b, c) == IndexOf(a, c)
  {
    var s := a + b;
    var k := IndexOf(a, c).value;
    assert s[k] == c;
    assert s[..k] == a[..k];
  }

  /** A plain reply ending in CR, seen through `str()`: the first `r` is
      the one of the escaped CR, so slicing up to one before it gives back
      the reply's text. */
  lemma CrReply(head: string)
    requires Plain(head) && 'r' !in head
    ensures var s := BytesRepr(head + "\r");
      && s == "b'" + head + "\\r'"
      && IndexOf(s, 'r') == Some(|head| + 3)
  {
    ReprPlainCr(head);
    var s := "b'" + head + "\\r'";
    assert s == ("b'" + head + "\\") + "r'";
    assert 'r' !in "b'" + head + "\\";
    IndexOfAfter("b'" + head + "\\", "r'", 'r');
  }

  /** A string that starts with `c` has `c` at position 0. */
  lemma IndexOfHead(c: char, rest: string)
    ensures IndexOf([c] + rest, c) == Some(0)
  {
    var s := [c] + rest;
    assert s[0] == c;
  }

  /** The first `c` of `pre + [c] + rest`, when `pre` holds none, is at
      the end of `pre`. */
  lemma IndexOfFirst(pre: string, c: char, rest: string)
    requires c !in pre
    ensures IndexOf(pre + [c] + rest, c) == Some(|pre|)
  {
    var s := pre + [c] + rest;
    assert s[|pre|] == c;
    assert s[..|pre|] == pre;
  }
}
