/**
 * The Python string operations the scraper and the updater rely on, written out
 * over `string` (a sequence of code points): `str.strip()`, `str.strip(c)`,
 * `str.find`, the `in` operator, `str.split(c)`, `sep.join(...)`,
 * `str.endswith`, `int(...)` on decimal digits and the last element of
 * `str.splitlines()`.
 */
module Text {

  /** Python's `str.isspace()` for a single character. */
  predicate IsSpace(c: char) {
    ('\t' <= c <= '\r') || ('\U{1c}' <= c <= '\U{1f}') || c == ' ' ||
    c == '\U{85}' || c == '\U{a0}' || c == '\U{1680}' ||
    ('\U{2000}' <= c <= '\U{200a}') || c == '\U{2028}' || c == '\U{2029}' ||
    c == '\U{202f}' || c == '\U{205f}' || c == '\U{3000}'
  }

  /** The characters at which Python's `str.splitlines()` ends a line. */
  predicate IsLineBreak(c: char) {
    ('\n' <= c <= '\r') || ('\U{1c}' <= c <= '\U{1e}') ||
    c == '\U{85}' || c == '\U{2028}' || c == '\U{2029}'
  }

  lemma LineBreakIsSpace(c: char)
    requires IsLineBreak(c)
    ensures IsSpace(c)
  {
  }

  /** No white space at either end: what `str.strip()` leaves. */
  predicate Stripped(s: string) {
    s == [] || (!IsSpace(s[0]) && !IsSpace(s[|s| - 1]))
  }

  /** Every character of `t` is white space. */
  predicate AllSpace(t: string) {
    forall i :: 0 <= i < |t| ==> IsSpace(t[i])
  }

  /** The first index at or after `i` whose character is not white space, or `|s|`. */
  function SpaceEnd(s: string, i: nat): (k: nat)
    requires i <= |s|
    ensures i <= k <= |s|
    ensures forall j :: i <= j < k ==> IsSpace(s[j])
    ensures k < |s| ==> !IsSpace(s[k])
    decreases |s| - i
  {
    if i < |s| && IsSpace(s[i]) then SpaceEnd(s, i + 1) else i
  }

  /** The index just after the last character before `j` that is not white space, or 0. */
  function SpaceStart(s: string, j: nat): (k: nat)
    requires j <= |s|
    ensures k <= j
    ensures forall m :: k <= m < j ==> IsSpace(s[m])
    ensures k > 0 ==> !IsSpace(s[k - 1])
  {
    if j > 0 && IsSpace(s[j - 1]) then SpaceStart(s, j - 1) else j
  }

  /** `s.lstrip()`: the suffix left after dropping the leading white space. */
  function LStrip(s: string): string
    decreases |s|
  {
    if s != [] && IsSpace(s[0]) then LStrip(s[1..]) else s
  }

  /** `s.rstrip()`: the prefix left after dropping the trailing white space. */
  function RStrip(s: string): string
    decreases |s|
  {
    if s != [] && IsSpace(s[|s| - 1]) then RStrip(s[..|s| - 1]) else s
  }

  /** `LStrip` keeps the text from the first character that is not white space on. */
  lemma LStripSpaceEnd(s: string)
    ensures LStrip(s) == s[SpaceEnd(s, 0)..]
  {
    assert s[0..] == s;
    LStripFrom(s, 0);
  }

  lemma {:induction false} LStripFrom(s: string, i: nat)
    requires i <= |s|
    ensures LStrip(s[i..]) == s[SpaceEnd(s, i)..]
    decreases |s| - i
  {
    if i < |s| && IsSpace(s[i]) {
      assert s[i..][1..] == s[i + 1..];
      LStripFrom(s, i + 1);
    }
  }

  /** `RStrip` keeps the text up to the last character that is not white space. */
  lemma RStripSpaceStart(s: string)
    ensures RStrip(s) == s[..SpaceStart(s, |s|)]
  {
    assert s[..|s|] == s;
    RStripUpTo(s, |s|);
  }

  lemma {:induction false} RStripUpTo(s: string, j: nat)
    requires j <= |s|
    ensures RStrip(s[..j]) == s[..SpaceStart(s, j)]
    decreases j
  {
    if j > 0 && IsSpace(s[j - 1]) {
      assert s[..j][..j - 1] == s[..j - 1];
      RStripUpTo(s, j - 1);
    }
  }

  /** `s.strip()`. */
  function Strip(s: string): string {
    RStrip(LStrip(s))
  }

  /**
   * `Strip` is the unique way of cutting a string into white space, a
   * stripped middle and white space: whatever the padding, the middle is
   * what comes back.
   */
  lemma {:induction false} StripPadded(x: string, m: string, y: string)
    requires AllSpace(x) && AllSpace(y)
    requires Stripped(m)
    ensures Strip(x + m + y) == m
  {
    if m == [] {
      assert x + m + y == (x + y) + [];
      AllSpaceAppend(x, y);
      LStripPadded(x + y, []);
    } else {
      AppendAssoc(x, m, y);
      assert (m + y)[0] == m[0];
      LStripPadded(x, m + y);
      RStripPadded(m, y);
    }
  }

  lemma AllSpaceAppend(x: string, y: string)
    requires AllSpace(x) && AllSpace(y)
    ensures AllSpace(x + y)
  {
    forall i | 0 <= i < |x + y| ensures IsSpace((x + y)[i]) {
      if i < |x| { assert (x + y)[i] == x[i]; } else { assert (x + y)[i] == y[i - |x|]; }
    }
  }

  /** Leading white space is dropped up to the first character that is not white space. */
  lemma LStripPadded(x: string, t: string)
    requires AllSpace(x)
    requires t == [] || !IsSpace(t[0])
    ensures LStrip(x + t) == t
  {
    var s := x + t;
    forall j | 0 <= j < |x| ensures IsSpace(s[j]) {
      assert s[j] == x[j];
    }
    if t != [] {
      assert s[|x|] == t[0];
    }
    LStripSpaceEnd(s);
    assert SpaceEnd(s, 0) == |x|;
    assert s[|x|..] == t;
  }

  /** Once a prefix holds something other than white space, what follows it is kept whole by `LStrip`. */
  lemma LStripAppend(p: string, t: string)
    requires !AllSpace(p)
    ensures LStrip(p + t) == LStrip(p) + t
  {
    var s := p + t;
    var k := SpaceEnd(p, 0);
    forall j | 0 <= j <= k ensures s[j] == p[j] { }
    LStripSpaceEnd(p);
    LStripSpaceEnd(s);
    assert SpaceEnd(s, 0) == k;
    DropAppend(p, t, k);
  }

  /** Dropping a first part of a concatenation that lies within its left operand. */
  lemma DropAppend(p: string, t: string, k: nat)
    requires k <= |p|
    ensures (p + t)[k..] == p[k..] + t
  {
  }

  /** Trailing white space is dropped back to the last character that is not white space. */
  lemma RStripPadded(t: string, y: string)
    requires AllSpace(y)
    requires t == [] || !IsSpace(t[|t| - 1])
    ensures RStrip(t + y) == t
  {
    var s := t + y;
    forall j | |t| <= j < |s| ensures IsSpace(s[j]) {
      assert s[j] == y[j - |t|];
    }
    if t != [] {
      assert s[|t| - 1] == t[|t| - 1];
    }
    RStripSpaceStart(s);
    assert SpaceStart(s, |s|) == |t|;
    assert s[..|t|] == t;
  }

  /** White space after a last character that is not white space does not change what `Strip` keeps. */
  lemma StripTrailing(s: string, y: string)
    requires s != [] && !IsSpace(s[|s| - 1])
    requires AllSpace(y)
    ensures Strip(s + y) == Strip(s)
  {
    assert !IsSpace(s[|s| - 1]);
    LStripAppend(s, y);
    LStripSpaceEnd(s);
    var u := LStrip(s);
    assert SpaceEnd(s, 0) < |s|;
    assert u[|u| - 1] == s[|s| - 1];
    RStripPadded(u, y);
    assert u + [] == u;
    RStripPadded(u, []);
  }

  /** A string already stripped is left alone by `Strip`. */
  lemma StripStripped(s: string)
    requires Stripped(s)
    ensures Strip(s) == s
  {
    LStripSpaceEnd(s);
    RStripSpaceStart(s);
    assert SpaceEnd(s, 0) == 0;
    assert s[0..] == s;
    assert SpaceStart(s, |s|) == |s|;
  }

  /** Whatever it is given, `Strip` returns a stripped string, and stripping it again changes nothing. */
  lemma StripIsStripped(s: string)
    ensures Stripped(Strip(s))
    ensures Strip(Strip(s)) == Strip(s)
  {
    var l := LStrip(s);
    var r := RStrip(l);
    LStripSpaceEnd(s);
    RStripSpaceStart(l);
    if r != [] {
      assert r[0] == l[0];
      assert r[|r| - 1] == l[|r| - 1];
    }
    StripStripped(r);
  }

  /**
   * `Strip` keeps a stretch of the text: it starts at the first character
   * that is not white space, and it is empty only when the whole text is
   * white space.
   */
  lemma StripIsInfix(s: string)
    ensures var k := SpaceEnd(s, 0); var r := Strip(s);
      && k + |r| <= |s|
      && (forall i :: 0 <= i < |r| ==> r[i] == s[k + i])
      && (r == [] ==> AllSpace(s))
  {
    var l := LStrip(s);
    LStripSpaceEnd(s);
    RStripSpaceStart(l);
  }

  /** The first index at or after `i` whose character is not `c`, or `|s|`. */
  function CharEnd(s: string, c: char, i: nat): (k: nat)
    requires i <= |s|
    ensures i <= k <= |s|
    ensures forall j :: i <= j < k ==> s[j] == c
    ensures k < |s| ==> s[k] != c
    decreases |s| - i
  {
    if i < |s| && s[i] == c then CharEnd(s, c, i + 1) else i
  }

  /** The index just after the last character before `j` that is not `c`, or 0. */
  function CharStart(s: string, c: char, j: nat): (k: nat)
    requires j <= |s|
    ensures k <= j
    ensures forall m :: k <= m < j ==> s[m] == c
    ensures k > 0 ==> s[k - 1] != c
  {
    if j > 0 && s[j - 1] == c then CharStart(s, c, j - 1) else j
  }

  /** `s.lstrip(c)`. */
  function LStripChar(s: string, c: char): string
    decreases |s|
  {
    if s != [] && s[0] == c then LStripChar(s[1..], c) else s
  }

  /** `s.rstrip(c)`. */
  function RStripChar(s: string, c: char): string
    decreases |s|
  {
    if s != [] && s[|s| - 1] == c then RStripChar(s[..|s| - 1], c) else s
  }

  /** `LStripChar` keeps the text from the first character that is not `c` on. */
  lemma {:induction false} LStripCharFrom(s: string, c: char, i: nat)
    requires i <= |s|
    ensures LStripChar(s[i..], c) == s[CharEnd(s, c, i)..]
    decreases |s| - i
  {
    if i < |s| && s[i] == c {
      assert s[i..][1..] == s[i + 1..];
      LStripCharFrom(s, c, i + 1);
    }
  }

  /** `RStripChar` keeps the text up to the last character that is not `c`. */
  lemma {:induction false} RStripCharUpTo(s: string, c: char, j: nat)
    requires j <= |s|
    ensures RStripChar(s[..j], c) == s[..CharStart(s, c, j)]
    decreases j
  {
    if j > 0 && s[j - 1] == c {
      assert s[..j][..j - 1] == s[..j - 1];
      RStripCharUpTo(s, c, j - 1);
    }
  }

  /** `s.strip(c)` for a one-character argument `c`. */
  function StripChar(s: string, c: char): string {
    RStripChar(LStripChar(s, c), c)
  }

  /** A string that neither starts nor ends with `c` is what `strip(c)` returns for it, bare or wrapped once in `c`. */
  lemma StripCharWrapped(u: string, c: char)
    requires u == [] || (u[0] != c && u[|u| - 1] != c)
    ensures StripChar(u, c) == u
    ensures StripChar([c] + u + [c], c) == u
  {
    assert CharEnd(u, c, 0) == 0 && u[0..] == u;
    LStripCharFrom(u, c, 0);
    assert CharStart(u, c, |u|) == |u| && u[..|u|] == u;
    RStripCharUpTo(u, c, |u|);
    var w := [c] + u + [c];
    assert w[0..] == w;
    LStripCharFrom(w, c, 0);
    if u == [] {
      assert w == [c, c];
      assert CharEnd(w, c, 0) == 2;
    } else {
      assert w[1] == u[0];
      assert CharEnd(w, c, 0) == 1;
      var l := w[1..];
      assert l == u + [c];
      assert l[|u| - 1] == u[|u| - 1];
      assert CharStart(l, c, |l|) == |u|;
      assert l[..|l|] == l;
      RStripCharUpTo(l, c, |l|);
      assert l[..|u|] == u;
    }
  }

  /** `s[i:i+len(pat)] == pat`, with the slice inside `s`. */
  predicate OccursAt(s: string, pat: string, i: nat) {
    i + |pat| <= |s| && s[i..i + |pat|] == pat
  }

  /** Concatenation regrouped, stated once so that proofs need not rediscover it. */
  lemma AppendAssoc<T>(a: seq<T>, b: seq<T>, c: seq<T>)
    ensures (a + b) + c == a + (b + c)
  {
  }

  /** `s.find(pat, start)` for a non-negative start: the first index at or after `start` where `pat` occurs, or -1. */
  function Find(s: string, pat: string, start: nat): (r: int)
    ensures r == -1 || (start <= r && OccursAt(s, pat, r))
    ensures forall i :: start <= i && (r == -1 || i < r) ==> !OccursAt(s, pat, i)
    decreases |s| - start
  {
    if start + |pat| > |s| then -1
    else if OccursAt(s, pat, start) then start
    else Find(s, pat, start + 1)
  }

  /** `pat in s`. */
  predicate Contains(s: string, pat: string) {
    Find(s, pat, 0) >= 0
  }

  /** An occurrence in a prefix stays an occurrence in the longer string. */
  lemma ContainsExtend(a: string, b: string, pat: string)
    requires Contains(a, pat)
    ensures Contains(a + b, pat)
  {
    var k := Find(a, pat, 0);
    assert (a + b)[k..k + |pat|] == a[k..k + |pat|];
    assert OccursAt(a + b, pat, k);
  }

  /**
   * When `pat` does not occur in `a` from `start` on, `b` starts with `pat`
   * and the first character of `pat` does not recur in it, `find` in `a + b`
   * stops exactly where `b` begins: no occurrence can straddle the seam.
   */
  lemma {:induction false} FindAtSeam(a: string, b: string, pat: string, start: nat)
    requires start <= |a|
    requires |pat| > 0 && OccursAt(b, pat, 0)
    requires forall i :: 0 < i < |pat| ==> pat[i] != pat[0]
    requires forall i :: start <= i ==> !OccursAt(a, pat, i)
    ensures Find(a + b, pat, start) == |a|
  {
    var s := a + b;
    assert s[|a|..|a| + |pat|] == b[..|pat|];
    assert OccursAt(s, pat, |a|);
    forall i | start <= i < |a|
      ensures !OccursAt(s, pat, i)
    {
      if i + |pat| <= |a| {
        assert s[i..i + |pat|] == a[i..i + |pat|];
        assert !OccursAt(a, pat, i);
      } else {
        var d := |a| - i;
        assert s[|a|] == b[0] == pat[0];
        assert pat[d] != pat[0];
        assert s[i..i + |pat|][d] == s[|a|];
      }
    }
  }

  /** The index of the first `c` in `s`, or `|s|` when there is none. */
  function IndexOf(s: string, c: char): (r: nat)
    ensures r <= |s|
    ensures r < |s| ==> s[r] == c
    ensures forall i :: 0 <= i < r ==> s[i] != c
  {
    if s == [] then 0 else if s[0] == c then 0 else 1 + IndexOf(s[1..], c)
  }

  /** `s.split(c)` for a one-character separator `c`. */
  function Split(s: string, c: char): (r: seq<string>)
    ensures |r| >= 1
    ensures forall i :: 0 <= i < |r| ==> c !in r[i]
    decreases |s|
  {
    var k := IndexOf(s, c);
    if k == |s| then [s] else [s[..k]] + Split(s[k + 1..], c)
  }

  /** `sep.join(xs)`. */
  function Join(xs: seq<string>, sep: string): string {
    if |xs| == 0 then "" else if |xs| == 1 then xs[0] else xs[0] + sep + Join(xs[1..], sep)
  }

  /** Splitting undoes joining, for a non-empty list of pieces that do not contain the separator. */
  lemma {:induction false} SplitJoin(xs: seq<string>, c: char)
    requires |xs| >= 1
    requires forall i :: 0 <= i < |xs| ==> c !in xs[i]
    ensures Split(Join(xs, [c]), c) == xs
  {
    if |xs| > 1 {
      var rest := Join(xs[1..], [c]);
      assert Join(xs, [c]) == xs[0] + [c] + rest;
      SplitAtFirst(xs[0], c, rest);
      SplitJoin(xs[1..], c);
      assert xs == [xs[0]] + xs[1..];
    }
  }

  /** The first piece ends at the first separator. */
  lemma SplitAtFirst(x: string, c: char, rest: string)
    requires c !in x
    ensures Split(x + [c] + rest, c) == [x] + Split(rest, c)
  {
    var s := x + [c] + rest;
    assert s[|x|] == c;
    assert forall i :: 0 <= i < |x| ==> s[i] == x[i];
    assert IndexOf(s, c) == |x|;
    assert s[..|x|] == x;
    assert s[|x| + 1..] == rest;
  }

  /** `s.endswith(suffix)`. */
  predicate EndsWith(s: string, suffix: string) {
    |suffix| <= |s| && s[|s| - |suffix|..] == suffix
  }

  predicate IsDigit(c: char) {
    '0' <= c <= '9'
  }

  predicate AllDigits(s: string) {
    forall i :: 0 <= i < |s| ==> IsDigit(s[i])
  }

  function DigitValue(c: char): (d: nat)
    requires IsDigit(c)
    ensures d < 10
  {
    c as int - '0' as int
  }

  function DigitChar(d: nat): (c: char)
    requires d < 10
    ensures IsDigit(c) && DigitValue(c) == d
  {
    ('0' as int + d) as char
  }

  /** Python's `int(s)` on a string of ASCII decimal digits. */
  function ParseNat(s: string): nat
    requires AllDigits(s)
  {
    if s == [] then 0 else 10 * ParseNat(s[..|s| - 1]) + DigitValue(s[|s| - 1])
  }

  /** Python's `str(n)` for a natural number: its decimal digits, without leading zeros. */
  function NatToString(n: nat): (r: string)
    ensures r != [] && AllDigits(r)
  {
    if n < 10 then [DigitChar(n)] else NatToString(n / 10) + [DigitChar(n % 10)]
  }

  /** Reading back the digits that `NatToString` writes gives the number again. */
  lemma {:induction false} ParseNatToString(n: nat)
    ensures ParseNat(NatToString(n)) == n
  {
    var s := NatToString(n);
    if n >= 10 {
      ParseNatToString(n / 10);
      assert s[..|s| - 1] == NatToString(n / 10);
    }
  }

  function Pow10(w: nat): (p: nat)
    ensures p >= 1
  {
    if w == 0 then 1 else 10 * Pow10(w - 1)
  }

  /** The last `w` decimal digits of `n`, zero-padded on the left (the `%02d`-style fields of `strftime`). */
  function Digits(n: nat, w: nat): (r: string)
    ensures |r| == w && AllDigits(r)
  {
    if w == 0 then [] else Digits(n / 10, w - 1) + [DigitChar(n % 10)]
  }

  /** A number that fits in `w` digits is read back from its zero-padded digits. */
  lemma {:induction false} ParseNatDigits(n: nat, w: nat)
    requires n < Pow10(w)
    ensures ParseNat(Digits(n, w)) == n
  {
    if w > 0 {
      var s := Digits(n, w);
      assert n / 10 < Pow10(w - 1);
      ParseNatDigits(n / 10, w - 1);
      assert s[..|s| - 1] == Digits(n / 10, w - 1);
    }
  }

  /** Numbers that fit in `w` digits and share their zero-padded digits are equal. */
  lemma DigitsInjective(a: nat, b: nat, w: nat)
    requires a < Pow10(w) && b < Pow10(w)
    requires Digits(a, w) == Digits(b, w)
    ensures a == b
  {
    ParseNatDigits(a, w);
    ParseNatDigits(b, w);
  }

  /** The index just after the last line break before `j`, or 0. */
  function LineStart(s: string, j: nat): (k: nat)
    requires j <= |s|
    ensures k <= j
    ensures forall m :: k <= m < j ==> !IsLineBreak(s[m])
    ensures k > 0 ==> IsLineBreak(s[k - 1])
  {
    if j > 0 && !IsLineBreak(s[j - 1]) then LineStart(s, j - 1) else j
  }

  /**
   * The text after the last line break of `s` (empty when `s` ends with a
   * break). It is `str.splitlines()[-1]` only for text that does not end
   * with a break, which is how its callers use it: after stripping, or after
   * dropping the final break.
   */
  function LastLine(s: string): string
    decreases |s|
  {
    if s == [] || IsLineBreak(s[|s| - 1]) then [] else LastLine(s[..|s| - 1]) + [s[|s| - 1]]
  }

  lemma {:induction false} LastLineUpTo(s: string, j: nat)
    requires j <= |s|
    ensures LastLine(s[..j]) == s[LineStart(s, j)..j]
    decreases j
  {
    var t := s[..j];
    if j > 0 && !IsLineBreak(s[j - 1]) {
      var k := LineStart(s, j - 1);
      assert LineStart(s, j) == k;
      assert t[..j - 1] == s[..j - 1];
      assert t[j - 1] == s[j - 1];
      assert LastLine(t) == LastLine(s[..j - 1]) + [s[j - 1]];
      LastLineUpTo(s, j - 1);
      assert s[k..j] == s[k..j - 1] + [s[j - 1]];
    } else {
      assert LastLine(t) == [];
    }
  }

  /**
   * `r` ends `s`, holds no line break, and is preceded by a line break
   * whenever it is not the whole of `s`.
   */
  predicate EndLine(s: string, r: string) {
    && |r| <= |s|
    && (forall i :: 0 <= i < |r| ==> r[i] == s[|s| - |r| + i] && !IsLineBreak(r[i]))
    && (|r| < |s| ==> IsLineBreak(s[|s| - |r| - 1]))
  }

  /** The last line is the text after the last line break (the whole text when there is none). */
  lemma LastLineShape(s: string)
    ensures LastLine(s) == s[LineStart(s, |s|)..]
    ensures EndLine(s, LastLine(s))
  {
    LastLineFrom(s);
    SuffixShape(s, LineStart(s, |s|), LastLine(s));
  }

  /** The last line is the text from the start of the last line to the end. */
  lemma LastLineFrom(s: string)
    ensures LastLine(s) == s[LineStart(s, |s|)..]
  {
    assert s[..|s|] == s;
    LastLineUpTo(s, |s|);
  }

  /** A suffix `s[k..]` with no break in it, after a break or at the start, is an end line of `s`. */
  lemma SuffixShape(s: string, k: nat, r: string)
    requires k <= |s| && r == s[k..]
    requires forall m :: k <= m < |s| ==> !IsLineBreak(s[m])
    requires k > 0 ==> IsLineBreak(s[k - 1])
    ensures EndLine(s, r)
  {
    forall i | 0 <= i < |r| ensures r[i] == s[|s| - |r| + i] && !IsLineBreak(r[i]) {
      assert r[i] == s[k + i];
    }
  }

  /** A string without line breaks is its own last line. */
  lemma LastLineNoBreak(s: string)
    requires forall i :: 0 <= i < |s| ==> !IsLineBreak(s[i])
    ensures LastLine(s) == s
  {
    LastLineFrom(s);
    assert LineStart(s, |s|) == 0;
    assert s[0..] == s;
  }

  /** The text after a line break is the last line whatever precedes the break. */
  lemma LastLineAfterBreak(before: string, brk: char, line: string)
    requires IsLineBreak(brk)
    requires forall i :: 0 <= i < |line| ==> !IsLineBreak(line[i])
    ensures LastLine(before + [brk] + line) == line
  {
    var p := before + [brk];
    var s := p + line;
    var k := |p|;
    assert p[k - 1] == brk;
    DropAppend(p, line, k);
    assert p[k..] == [];
    LineStartAfterBreak(s, k);
    LastLineFrom(s);
  }

  /** When `s[k..]` holds no line break and a break ends `s[..k]`, the last line starts at `k`. */
  lemma LineStartAfterBreak(s: string, k: nat)
    requires 0 < k <= |s| && IsLineBreak(s[k - 1])
    requires forall i :: 0 <= i < |s[k..]| ==> !IsLineBreak(s[k..][i])
    ensures LineStart(s, |s|) == k
  {
    forall m | k <= m < |s| ensures !IsLineBreak(s[m]) {
      assert s[m] == s[k..][m - k];
    }
  }
}
