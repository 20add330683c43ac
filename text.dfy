/** String operations that tools/build_data.py takes from Python's `str` type:
    `strip`, `startswith`, the `in` substring test, `rsplit('.', 2)`, `isdigit`,
    the `{n:03d}` format, `casefold`, and the ordering and stable `sort` of lists
    of strings.  Strings are sequences of characters compared by code point. */
module Text {

  datatype Option<T> = None | Some(value: T)

  /* ---------------------------------------------------------------- whitespace */

  /** The characters Python's `str.strip()` removes (those for which `str.isspace()` holds). */
  predicate IsSpace(c: char) {
    var n := c as int;
    (9 <= n <= 13) || (28 <= n <= 32) || n == 0x85 || n == 0xA0 || n == 0x1680 ||
    (0x2000 <= n <= 0x200A) || n == 0x2028 || n == 0x2029 || n == 0x202F ||
    n == 0x205F || n == 0x3000
  }

  function StripStart(s: string): (r: string)
    ensures |r| <= |s| && r == s[|s| - |r|..]
    ensures r == [] || !IsSpace(r[0])
    ensures forall i :: 0 <= i < |s| - |r| ==> IsSpace(s[i])
  {
    if |s| > 0 && IsSpace(s[0]) then StripStart(s[1..]) else s
  }

  function StripEnd(s: string): (r: string)
    ensures |r| <= |s| && r == s[..|r|]
    ensures r == [] || !IsSpace(r[|r| - 1])
    ensures forall i :: |r| <= i < |s| ==> IsSpace(s[i])
  {
    if |s| > 0 && IsSpace(s[|s| - 1]) then StripEnd(s[..|s| - 1]) else s
  }

  /** Python's `s.strip()`: `s` without its leading and trailing whitespace. */
  function Strip(s: string): (r: string)
    ensures r == [] || (!IsSpace(r[0]) && !IsSpace(r[|r| - 1]))
  {
    StripEnd(StripStart(s))
  }

  /** Stripping twice is stripping once: a stripped line has nothing left to strip. */
  lemma StripIdempotent(s: string)
    ensures Strip(Strip(s)) == Strip(s)
  {
    var r := Strip(s);
    if r != [] {
      assert StripStart(r) == r;
      assert StripEnd(r) == r;
    }
  }

  /* ---------------------------------------------------------------- prefixes and infixes */

  /** Python's `s.startswith(p)`. */
  predicate StartsWith(s: string, p: string) {
    |p| <= |s| && s[..|p|] == p
  }

  /** Python's `t in s` for strings: `t` occurs somewhere in `s`. */
  predicate HasInfix(s: string, t: string)
    decreases |s|
  {
    |t| <= |s| && (s[..|t|] == t || HasInfix(s[1..], t))
  }

  /** A found occurrence is an occurrence, wherever it is placed. */
  lemma HasInfixAt(s: string, t: string, i: nat)
    requires i + |t| <= |s| && s[i..i + |t|] == t
    ensures HasInfix(s, t)
  {
    if i > 0 {
      assert s[1..][i - 1..i - 1 + |t|] == t;
      HasInfixAt(s[1..], t, i - 1);
    }
  }

  /* ---------------------------------------------------------------- digits */

  predicate IsDigit(c: char) {
    '0' <= c <= '9'
  }

  /** Python's `s.isdigit()`, for ASCII: a non-empty string of decimal digits. */
  predicate IsDigits(s: string) {
    |s| > 0 && forall i :: 0 <= i < |s| ==> IsDigit(s[i])
  }

  function DigitChar(d: nat): (c: char)
    requires d < 10
    ensures IsDigit(c) && c as int - '0' as int == d
  {
    (d + '0' as int) as char
  }

  /** The decimal numeral of `n`, without leading zeros (Python's `str(n)`). */
  function Decimal(n: nat): (r: string)
    ensures IsDigits(r)
    ensures n < 10 <==> |r| == 1
    ensures 10 <= n < 100 <==> |r| == 2
    ensures 100 <= n < 1000 <==> |r| == 3
    ensures 1000 <= n ==> |r| >= 4
  {
    if n < 10 then [DigitChar(n)] else Decimal(n / 10) + [DigitChar(n % 10)]
  }

  /** The number a string of digits denotes; leading zeros are allowed. */
  function DigitsValue(s: string): nat
    requires forall i :: 0 <= i < |s| ==> IsDigit(s[i])
  {
    if s == [] then 0
    else
      assert IsDigit(s[|s| - 1]);
      DigitsValue(s[..|s| - 1]) * 10 + (s[|s| - 1] as int - '0' as int)
  }

  function Zeros(k: nat): (r: string)
    ensures |r| == k && forall i :: 0 <= i < k ==> r[i] == '0'
  {
    seq(k, _ => '0')
  }

  /** Python's format `{n:03d}`: the numeral of `n`, padded on the left with zeros to width 3. */
  function Pad3(n: nat): (r: string)
    ensures IsDigits(r)
    ensures n < 1000 ==> |r| == 3
    ensures 1000 <= n ==> r == Decimal(n)
  {
    var d := Decimal(n);
    if |d| < 3 then Zeros(3 - |d|) + d else d
  }

  lemma {:induction false} DecimalValue(n: nat)
    ensures DigitsValue(Decimal(n)) == n
  {
    if n >= 10 {
      DecimalValue(n / 10);
      var d := Decimal(n);
      assert d[..|d| - 1] == Decimal(n / 10);
    }
  }

  lemma {:induction false} LeadingZerosValue(k: nat, s: string)
    requires forall i :: 0 <= i < |s| ==> IsDigit(s[i])
    ensures DigitsValue(Zeros(k) + s) == DigitsValue(s)
  {
    if s == [] {
      ZerosValue(k);
      assert Zeros(k) + s == Zeros(k);
    } else {
      var t := Zeros(k) + s;
      assert t[..|t| - 1] == Zeros(k) + s[..|s| - 1];
      LeadingZerosValue(k, s[..|s| - 1]);
    }
  }

  lemma {:induction false} ZerosValue(k: nat)
    ensures DigitsValue(Zeros(k)) == 0
  {
    if k > 0 {
      assert Zeros(k)[..k - 1] == Zeros(k - 1);
      ZerosValue(k - 1);
    }
  }

  /** Reading the padded numeral back gives the number: the format loses nothing. */
  lemma Pad3Value(n: nat)
    ensures DigitsValue(Pad3(n)) == n
  {
    var d := Decimal(n);
    DecimalValue(n);
    if |d| < 3 {
      LeadingZerosValue(3 - |d|, d);
    }
  }

  /** Distinct numbers are formatted as distinct strings. */
  lemma Pad3Injective(a: nat, b: nat)
    requires Pad3(a) == Pad3(b)
    ensures a == b
  {
    Pad3Value(a);
    Pad3Value(b);
  }

  /** Below 1000, `{n:03d}` writes the hundreds, tens and units digits. */
  lemma Pad3Digits(n: nat)
    requires n < 1000
    ensures Pad3(n) == [DigitChar(n / 100), DigitChar(n / 10 % 10), DigitChar(n % 10)]
  {
    if n >= 100 {
      assert Decimal(n / 10) == Decimal(n / 100) + [DigitChar(n / 10 % 10)];
    } else if n >= 10 {
      assert Decimal(n) == [DigitChar(n / 10), DigitChar(n % 10)];
    }
  }

  /* ---------------------------------------------------------------- rsplit('.', 2) */

  /** The index of the last '.' in `s`, if any. */
  function LastDot(s: string): (r: Option<nat>)
    ensures r.None? ==> forall i :: 0 <= i < |s| ==> s[i] != '.'
    ensures r.Some? ==> r.value < |s| && s[r.value] == '.' &&
                        forall i :: r.value < i < |s| ==> s[i] != '.'
  {
    if s == [] then None
    else if s[|s| - 1] == '.' then Some(|s| - 1)
    else LastDot(s[..|s| - 1])
  }

  /** Python's `s.rsplit('.', 2)` when it yields three pieces, and None when `s` holds
      fewer than two dots (where Python yields fewer pieces). */
  function RSplit2(s: string): (r: Option<(string, string, string)>)
    ensures r.Some? <==> exists i, k :: 0 <= i < k < |s| && s[i] == '.' && s[k] == '.'
  {
    match LastDot(s)
    case None => None
    case Some(j) =>
      match LastDot(s[..j])
      case None =>
        assert forall i, k :: 0 <= i < k < |s| && s[i] == '.' && s[k] == '.' ==> s[..j][i] == '.';
        None
      case Some(i) =>
        assert s[i] == '.' && s[j] == '.';
        Some((s[..i], s[i + 1..j], s[j + 1..]))
  }

  /** Splitting and joining with dots are inverse: the pieces rejoin to `s`, and the
      last two pieces hold no dot. */
  lemma RSplit2Pieces(s: string)
    requires RSplit2(s).Some?
    ensures var (a, b, c) := RSplit2(s).value;
      s == a + "." + b + "." + c &&
      (forall k :: 0 <= k < |b| ==> b[k] != '.') &&
      (forall k :: 0 <= k < |c| ==> c[k] != '.')
  {
    var j := LastDot(s).value;
    var i := LastDot(s[..j]).value;
    assert s == s[..i] + "." + s[i + 1..j] + "." + s[j + 1..];
  }

  /** Joining three pieces, the last two without dots, and splitting again gives them back. */
  lemma RSplit2Join(a: string, b: string, c: string)
    requires forall k :: 0 <= k < |b| ==> b[k] != '.'
    requires forall k :: 0 <= k < |c| ==> c[k] != '.'
    ensures RSplit2(a + "." + b + "." + c) == Some((a, b, c))
  {
    var s := a + "." + b + "." + c;
    var j := |a| + |b| + 1;
    assert s[j + 1..] == c;
    LastDotAt(s, j);
    var t := s[..j];
    assert t == a + "." + b;
    assert forall i :: |a| < i < |t| ==> t[i] == b[i - |a| - 1];
    LastDotAt(t, |a|);
    assert t[..|a|] == a && t[|a| + 1..] == b;
    assert LastDot(s) == Some(j);
    assert LastDot(s[..j]) == Some(|a|);
    assert s[..|a|] == a && s[|a| + 1..j] == b;
  }

  lemma LastDotAt(s: string, j: nat)
    requires j < |s| && s[j] == '.'
    requires forall i :: j < i < |s| ==> s[i] != '.'
    ensures LastDot(s) == Some(j)
  {
  }

  /** A name containing ".part." holds two dots, so `rsplit('.', 2)` yields three pieces. */
  lemma PartInfixSplits(s: string)
    requires HasInfix(s, ".part.")
    ensures RSplit2(s).Some?
    decreases |s|
  {
    if s[..6] == ".part." {
      assert s[0] == '.' && s[5] == '.';
    } else {
      PartInfixSplits(s[1..]);
      var i, k :| 0 <= i < k < |s[1..]| && s[1..][i] == '.' && s[1..][k] == '.';
      assert s[i + 1] == '.' && s[k + 1] == '.';
    }
  }

  /** Prepending a directory to a name with two dots only lengthens the first piece. */
  lemma RSplit2Prefix(p: string, s: string)
    requires RSplit2(s).Some?
    ensures var (a, b, c) := RSplit2(s).value; RSplit2(p + s) == Some((p + a, b, c))
  {
    var (a, b, c) := RSplit2(s).value;
    RSplit2Pieces(s);
    assert p + s == (p + a) + "." + b + "." + c;
    RSplit2Join(p + a, b, c);
  }

  /* ---------------------------------------------------------------- case folding */

  function Lower(c: char): char {
    if 'A' <= c <= 'Z' then (c as int + 32) as char else c
  }

  /** Python's `s.casefold()` on ASCII text: every upper-case letter becomes lower case. */
  function Fold(s: string): (r: string)
    ensures |r| == |s|
    ensures forall i :: 0 <= i < |s| ==> r[i] == Lower(s[i])
    ensures forall i :: 0 <= i < |r| ==> !('A' <= r[i] <= 'Z')
  {
    seq(|s|, i requires 0 <= i < |s| => Lower(s[i]))
  }

  /** `c` and `d` are the same character, or the same ASCII letter in the two cases. */
  predicate SameLetter(c: char, d: char) {
    c == d ||
    ('A' <= c <= 'Z' && d as int == c as int + 32) ||
    ('A' <= d <= 'Z' && c as int == d as int + 32)
  }

  /** The sort key is blind to case and to nothing else: two strings get the same key exactly
      when they differ only in the case of ASCII letters. */
  lemma FoldEqualIffSameUpToCase(a: string, b: string)
    ensures Fold(a) == Fold(b) <==>
      |a| == |b| && forall i :: 0 <= i < |a| ==> SameLetter(a[i], b[i])
  {
    if |a| == |b| && forall i :: 0 <= i < |a| ==> SameLetter(a[i], b[i]) {
      assert forall i :: 0 <= i < |a| ==> Fold(a)[i] == Fold(b)[i];
    }
    if Fold(a) == Fold(b) {
      forall i | 0 <= i < |a|
        ensures SameLetter(a[i], b[i])
      {
        assert Lower(a[i]) == Fold(a)[i] == Fold(b)[i] == Lower(b[i]);
      }
    }
  }

  /* ---------------------------------------------------------------- ordering */

  /** Python's `a < b` on strings: lexicographic order by code point. */
  predicate LexLess(a: string, b: string)
    decreases |a|
  {
    if a == [] then b != []
    else if b == [] then false
    else if a[0] != b[0] then a[0] < b[0]
    else LexLess(a[1..], b[1..])
  }

  /** Python's `a <= b` on strings. */
  predicate LexLe(a: string, b: string) {
    !LexLess(b, a)
  }

  lemma {:induction false} LexLessIrreflexive(a: string)
    ensures !LexLess(a, a)
    decreases |a|
  {
    if a != [] {
      LexLessIrreflexive(a[1..]);
    }
  }

  lemma {:induction false} LexLessAsymmetric(a: string, b: string)
    requires LexLess(a, b)
    ensures !LexLess(b, a)
    decreases |a|
  {
    if a != [] && b != [] && a[0] == b[0] {
      LexLessAsymmetric(a[1..], b[1..]);
    }
  }

  lemma {:induction false} LexLessTransitive(a: string, b: string, c: string)
    requires LexLess(a, b) && LexLess(b, c)
    ensures LexLess(a, c)
    decreases |a|
  {
    if a != [] && b != [] && c != [] && a[0] == b[0] && b[0] == c[0] {
      LexLessTransitive(a[1..], b[1..], c[1..]);
    }
  }

  /** Any two different strings are ordered one way or the other. */
  lemma {:induction false} LexLessTotal(a: string, b: string)
    requires a != b
    ensures LexLess(a, b) || LexLess(b, a)
    decreases |a|
  {
    if a != [] && b != [] && a[0] == b[0] {
      assert a == [a[0]] + a[1..] && b == [b[0]] + b[1..];
      LexLessTotal(a[1..], b[1..]);
    }
  }

  /** A common prefix does not change how two strings compare. */
  lemma {:induction false} LexLessCommonPrefix(p: string, s: string, t: string)
    ensures LexLess(p + s, p + t) == LexLess(s, t)
    decreases |p|
  {
    if p != [] {
      assert (p + s)[0] == p[0] == (p + t)[0];
      assert (p + s)[1..] == p[1..] + s;
      assert (p + t)[1..] == p[1..] + t;
      assert LexLess(p + s, p + t) == LexLess((p + s)[1..], (p + t)[1..]);
      LexLessCommonPrefix(p[1..], s, t);
    } else {
      assert p + s == s && p + t == t;
    }
  }

  /* ---------------------------------------------------------------- stable sort */

  /** `xs` is in ascending order of `key` (Python's `list.sort(key=key)` postcondition). */
  predicate SortedBy(xs: seq<string>, key: string -> string) {
    forall i, j :: 0 <= i < j < |xs| ==> LexLe(key(xs[i]), key(xs[j]))
  }

  /** Places `x` after every element of `xs` whose key is not greater than its own. */
  function Insert(xs: seq<string>, x: string, key: string -> string): (r: seq<string>)
    ensures multiset(r) == multiset(xs) + multiset{x}
    ensures |r| == |xs| + 1
  {
    if xs == [] then [x]
    else if LexLess(key(x), key(xs[0])) then [x] + xs
    else
      assert xs == [xs[0]] + xs[1..];
      [xs[0]] + Insert(xs[1..], x, key)
  }

  lemma SortedCons(y: string, ys: seq<string>, key: string -> string)
    requires SortedBy(ys, key)
    requires forall j :: 0 <= j < |ys| ==> LexLe(key(y), key(ys[j]))
    ensures SortedBy([y] + ys, key)
  {
    var r := [y] + ys;
    forall i, j | 0 <= i < j < |r|
      ensures LexLe(key(r[i]), key(r[j]))
    {
      assert r[j] == ys[j - 1];
      if i > 0 {
        assert r[i] == ys[i - 1];
      }
    }
  }

  /** Inserting into a sorted sequence keeps it sorted. */
  lemma {:induction false} InsertSorted(xs: seq<string>, x: string, key: string -> string)
    requires SortedBy(xs, key)
    ensures SortedBy(Insert(xs, x, key), key)
  {
    if xs == [] {
    } else if LexLess(key(x), key(xs[0])) {
      LexLessAsymmetric(key(x), key(xs[0]));
      forall j | 0 <= j < |xs|
        ensures LexLe(key(x), key(xs[j]))
      {
        if j > 0 && LexLess(key(xs[j]), key(x)) {
          LexLessTransitive(key(xs[j]), key(x), key(xs[0]));
        }
      }
      SortedCons(x, xs, key);
    } else {
      var rest := Insert(xs[1..], x, key);
      InsertSorted(xs[1..], x, key);
      forall j | 0 <= j < |rest|
        ensures LexLe(key(xs[0]), key(rest[j]))
      {
        assert rest[j] in multiset(rest);
        if rest[j] != x {
          assert rest[j] in multiset(xs[1..]);
          var k :| 0 <= k < |xs[1..]| && xs[1..][k] == rest[j];
          assert xs[k + 1] == rest[j];
        }
      }
      SortedCons(xs[0], rest, key);
    }
  }

  /** Python's stable `sorted(xs, key=key)`, by insertion. */
  function SortBy(xs: seq<string>, key: string -> string): (r: seq<string>)
    ensures SortedBy(r, key)
    ensures multiset(r) == multiset(xs)
  {
    if xs == [] then []
    else
      assert xs == xs[..|xs| - 1] + [xs[|xs| - 1]];
      InsertSorted(SortBy(xs[..|xs| - 1], key), xs[|xs| - 1], key);
      Insert(SortBy(xs[..|xs| - 1], key), xs[|xs| - 1], key)
  }
}
