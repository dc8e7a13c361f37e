/** String helpers with the meaning Python gives them: `str.split`, indexing the
    last piece, and `int()` applied to a string. */
module Text {
  import opened Results

  /** The part of `s` after its last `sep`, or all of `s` when `sep` does not
      occur: what `s.split(sep)[-1]` yields. */
  function LastSegment(s: string, sep: char): (r: string)
    ensures sep !in r
    ensures |r| <= |s| && r == s[|s| - |r|..]
    ensures |r| < |s| ==> s[|s| - |r| - 1] == sep
    decreases |s|
  {
    if |s| == 0 then ""
    else if s[|s| - 1] == sep then ""
    else
      var p := LastSegment(s[..|s| - 1], sep);
      assert s[..|s| - 1][|s| - 1 - |p|..] + [s[|s| - 1]] == s[|s| - 1 - |p|..];
      p + [s[|s| - 1]]
  }

  /** Python's `s.split(sep)`: the pieces between occurrences of `sep`; there is
      always at least one piece, and an empty `s` gives one empty piece. */
  function Split(s: string, sep: char): (parts: seq<string>)
    ensures |parts| >= 1
    ensures forall i :: 0 <= i < |parts| ==> sep !in parts[i]
    decreases |s|
  {
    if |s| == 0 then [""]
    else
      var p := Split(s[..|s| - 1], sep);
      if s[|s| - 1] == sep then p + [""]
      else p[..|p| - 1] + [p[|p| - 1] + [s[|s| - 1]]]
  }

  /** `sep.join(parts)`: the inverse of `Split`. */
  function Join(parts: seq<string>, sep: char): string
    requires |parts| >= 1
  {
    if |parts| == 1 then parts[0]
    else Join(parts[..|parts| - 1], sep) + [sep] + parts[|parts| - 1]
  }

  /** Splitting loses nothing: joining the pieces back gives the original string. */
  lemma {:induction false} JoinSplit(s: string, sep: char)
    ensures Join(Split(s, sep), sep) == s
    decreases |s|
  {
    if |s| > 0 {
      var init := s[..|s| - 1];
      var p := Split(init, sep);
      JoinSplit(init, sep);
      if s[|s| - 1] == sep {
        assert (p + [""])[..|p|] == p;
      } else {
        var q := p[..|p| - 1] + [p[|p| - 1] + [s[|s| - 1]]];
        assert q[..|q| - 1] == p[..|p| - 1];
        if |p| > 1 {
          assert p[..|p| - 1][..|p| - 2] == p[..|p| - 2];
          assert Join(p, sep) == Join(p[..|p| - 1], sep) + [sep] + p[|p| - 1];
        }
      }
      assert s == init + [s[|s| - 1]];
    }
  }

  /** `LastSegment` is indeed the last piece of `Split`. */
  lemma {:induction false} LastSegmentIsLastPiece(s: string, sep: char)
    ensures var parts := Split(s, sep); parts[|parts| - 1] == LastSegment(s, sep)
    decreases |s|
  {
    if |s| > 0 {
      LastSegmentIsLastPiece(s[..|s| - 1], sep);
    }
  }

  /** A separator followed by a piece without separators: the piece is the last segment. */
  lemma {:induction false} LastSegmentAfterSeparator(prefix: string, sep: char, tail: string)
    requires sep !in tail
    ensures LastSegment(prefix + [sep] + tail, sep) == tail
    decreases |tail|
  {
    var s := prefix + [sep] + tail;
    if |tail| == 0 {
      assert s[|s| - 1] == sep;
    } else {
      assert s[..|s| - 1] == prefix + [sep] + tail[..|tail| - 1];
      LastSegmentAfterSeparator(prefix, sep, tail[..|tail| - 1]);
      assert tail == tail[..|tail| - 1] + [tail[|tail| - 1]];
    }
  }

  predicate IsDigit(c: char) {
    '0' <= c <= '9'
  }

  function DigitValue(c: char): (d: nat)
    requires IsDigit(c)
    ensures d < 10
  {
    c as int - '0' as int
  }

  function DigitChar(d: nat): (c: char)
    requires d < 10
    ensures IsDigit(c) && DigitValue(c) == d
  {
    ('0' as int + d) as char
  }

  /** The ASCII characters Python's `int()` skips around the digits of an
      ASCII string: space, tab, line feed, vertical tab, form feed and carriage
      return. The information separators `\x1c` to `\x1f`, which `str.strip()`
      removes, are not among them. */
  predicate IsSpace(c: char) {
    c == ' ' || 9 <= c as int <= 13
  }

  /** The first index at or after `i` that is not whitespace. */
  function SkipSpaces(s: string, i: nat): (r: nat)
    requires i <= |s|
    ensures i <= r <= |s|
    ensures forall k :: i <= k < r ==> IsSpace(s[k])
    ensures r < |s| ==> !IsSpace(s[r])
    decreases |s| - i
  {
    if i < |s| && IsSpace(s[i]) then SkipSpaces(s, i + 1) else i
  }

  /** The end of `s[lo..hi]` once its trailing whitespace is dropped. */
  function DropSpaces(s: string, lo: nat, hi: nat): (r: nat)
    requires lo <= hi <= |s|
    ensures lo <= r <= hi
    ensures forall k :: r <= k < hi ==> IsSpace(s[k])
    ensures r > lo ==> !IsSpace(s[r - 1])
    decreases hi
  {
    if hi > lo && IsSpace(s[hi - 1]) then DropSpaces(s, lo, hi - 1) else hi
  }

  /** `r` is `s[lo..hi]` and everything of `s` outside that slice is whitespace. */
  predicate StrippedSlice(s: string, r: string, lo: int, hi: int) {
    && 0 <= lo <= hi <= |s|
    && r == s[lo..hi]
    && (forall i :: 0 <= i < lo ==> IsSpace(s[i]))
    && (forall i :: hi <= i < |s| ==> IsSpace(s[i]))
  }

  /** How much leading whitespace `Strip` removes. */
  function StripOffset(s: string): nat
    ensures StripOffset(s) <= |s|
  {
    SkipSpaces(s, 0)
  }

  /** `s` with whitespace removed at both ends: the slice of `s` that starts
      after its leading whitespace, with only whitespace outside it. */
  function Strip(s: string): (r: string)
    ensures StrippedSlice(s, r, StripOffset(s), StripOffset(s) + |r|)
    ensures |r| > 0 ==> !IsSpace(r[0]) && !IsSpace(r[|r| - 1])
  {
    var lo := SkipSpaces(s, 0);
    s[lo..DropSpaces(s, lo, |s|)]
  }

  /** Decimal digits where single underscores may separate two digits, as
      Python's `int()` accepts them: `1_000` but not `_1`, `1_` or `1__0`. */
  predicate DigitGroups(b: string) {
    && |b| > 0
    && IsDigit(b[0])
    && IsDigit(b[|b| - 1])
    && (forall i :: 0 <= i < |b| ==> IsDigit(b[i]) || b[i] == '_')
    && (forall i, j :: 0 <= i < |b| && 0 <= j < |b| && j == i + 1 && b[i] == '_' ==> b[j] != '_')
  }

  /** The number a run of digits and underscores denotes, underscores ignored. */
  function DigitsValue(b: string): nat
    requires forall i :: 0 <= i < |b| ==> IsDigit(b[i]) || b[i] == '_'
    decreases |b|
  {
    if |b| == 0 then 0
    else if b[|b| - 1] == '_' then DigitsValue(b[..|b| - 1])
    else 10 * DigitsValue(b[..|b| - 1]) + DigitValue(b[|b| - 1])
  }

  /** The most digits `int()` converts from a decimal string: Python's default
      `sys.int_info.default_max_str_digits`, in force since Python 3.11 and the
      2022 security releases of 3.7 to 3.10. A longer numeral raises
      `ValueError`. */
  const MaxStrDigits: nat := 4300

  /** The number of decimal digits in a string; underscores and signs do not count. */
  function DigitCount(b: string): (n: nat)
    ensures n <= |b|
    decreases |b|
  {
    if |b| == 0 then 0 else (if IsDigit(b[0]) then 1 else 0) + DigitCount(b[1..])
  }

  /** In a run of plain digits every character counts. */
  lemma {:induction false} DigitCountOfDigits(b: string)
    requires forall i :: 0 <= i < |b| ==> IsDigit(b[i])
    ensures DigitCount(b) == |b|
    decreases |b|
  {
    if |b| > 0 {
      DigitCountOfDigits(b[1..]);
    }
  }

  /** Python's `int(s)` on a string, base 10: surrounding whitespace, an
      optional sign, then digit groups of at most `MaxStrDigits` digits.
      `None` is the `ValueError` it raises. */
  function ParseInt(s: string): (r: Option<int>)
    ensures r.Some? ==> |Strip(s)| > 0 && DigitCount(Strip(s)) <= MaxStrDigits
    ensures r.Some? && r.value < 0 ==> Strip(s)[0] == '-'
  {
    var t := Strip(s);
    if |t| > 0 && (t[0] == '+' || t[0] == '-') then
      var body := t[1..];
      assert DigitCount(t) == DigitCount(body);
      if DigitGroups(body) && DigitCount(body) <= MaxStrDigits then
        var v: int := DigitsValue(body);
        Some(if t[0] == '-' then -v else v)
      else None
    else if DigitGroups(t) && DigitCount(t) <= MaxStrDigits then Some(DigitsValue(t))
    else None
  }

  /** The characters a string accepted by `int()` can hold. */
  predicate NumeralChar(c: char) {
    IsDigit(c) || IsSpace(c) || c == '_' || c == '+' || c == '-'
  }

  /** Whatever parses holds a digit and is made of digits, whitespace, signs and
      underscores only, so a letter anywhere (`rc1`, `post`, `dev0`) makes the
      parse fail. */
  lemma ParsedCharacters(s: string)
    requires ParseInt(s).Some?
    ensures exists i :: 0 <= i < |s| && IsDigit(s[i])
    ensures forall i :: 0 <= i < |s| ==> NumeralChar(s[i])
  {
    var t := Strip(s);
    var lo := StripOffset(s);
    if t[0] == '+' || t[0] == '-' {
      assert DigitGroups(t[1..]);
      NumeralSlice(s, t, lo, lo + 1);
    } else {
      assert DigitGroups(t);
      NumeralSlice(s, t, lo, lo);
    }
  }

  /** The characters of `s` when its stripped part `t` is an optional sign
      followed by digit groups starting at `off`. */
  lemma NumeralSlice(s: string, t: string, lo: nat, off: nat)
    requires StrippedSlice(s, t, lo, lo + |t|)
    requires lo <= off <= lo + 1 && off - lo <= |t|
    requires off == lo + 1 ==> t[0] == '+' || t[0] == '-'
    requires DigitGroups(t[off - lo..])
    ensures IsDigit(s[off])
    ensures forall i :: 0 <= i < |s| ==> NumeralChar(s[i])
  {
    var b := t[off - lo..];
    assert s[off] == b[0];
    forall i | 0 <= i < |s|
      ensures NumeralChar(s[i])
    {
      if lo <= i < lo + |t| {
        assert s[i] == t[i - lo];
        if off <= i {
          assert t[i - lo] == b[i - off];
        }
      }
    }
  }

  /** The decimal digits of `n`, most significant first, no leading zeros. */
  function NatDigits(n: nat): (r: string)
    ensures |r| > 0 && forall i :: 0 <= i < |r| ==> IsDigit(r[i])
    decreases n
  {
    if n < 10 then [DigitChar(n)] else NatDigits(n / 10) + [DigitChar(n % 10)]
  }

  /** Python's `str(n)` for an integer. */
  function ShowInt(n: int): (r: string)
    ensures |r| > 0
  {
    if n < 0 then "-" + NatDigits(-n) else NatDigits(n)
  }

  lemma {:induction false} DigitsValueOfNatDigits(n: nat)
    ensures DigitsValue(NatDigits(n)) == n
    decreases n
  {
    if n >= 10 {
      var r := NatDigits(n);
      DigitsValueOfNatDigits(n / 10);
      assert r[..|r| - 1] == NatDigits(n / 10);
    }
  }

  /** `int('\x1c1')` and `int('1\x1f')` raise: an information separator next to
      the digits is not whitespace to `int()`. */
  lemma SeparatorIsNotSpace(c: char, d: char)
    requires 28 <= c as int <= 31 && IsDigit(d)
    ensures ParseInt([c, d]).None? && ParseInt([d, c]).None?
  {
    StripUnpadded([c, d]);
    StripUnpadded([d, c]);
  }

  /** A string with no whitespace at either end is its own strip. */
  lemma StripUnpadded(s: string)
    requires |s| > 0 && !IsSpace(s[0]) && !IsSpace(s[|s| - 1])
    ensures Strip(s) == s
  {
    assert SkipSpaces(s, 0) == 0;
    assert DropSpaces(s, 0, |s|) == |s|;
  }

  /** `int(str(n)) == n`: every integer's decimal form parses back to it, as
      long as it has at most `MaxStrDigits` digits; a longer one is refused. */
  lemma ParseShowInt(n: int)
    ensures var m: nat := if n < 0 then -n else n;
      ParseInt(ShowInt(n)).Some? <==> |NatDigits(m)| <= MaxStrDigits
    ensures ParseInt(ShowInt(n)).Some? ==> ParseInt(ShowInt(n)).value == n
  {
    var m: nat := if n < 0 then -n else n;
    DigitsValueOfNatDigits(m);
    if n < 0 {
      ParseNegatedDigits(NatDigits(m));
    } else {
      ParseDigitString(NatDigits(m));
    }
  }

  /** A run of plain decimal digits parses to the number it spells, leading
      zeros allowed, unless it is longer than `MaxStrDigits`. */
  lemma ParseDigitString(s: string)
    requires |s| > 0 && forall i :: 0 <= i < |s| ==> IsDigit(s[i])
    ensures ParseInt(s) == if |s| <= MaxStrDigits then Some(DigitsValue(s)) else None
  {
    StripUnpadded(s);
    assert DigitGroups(s);
    DigitCountOfDigits(s);
  }

  /** A minus sign before a run of plain digits negates the number they spell. */
  lemma ParseNegatedDigits(d: string)
    requires |d| > 0 && forall i :: 0 <= i < |d| ==> IsDigit(d[i])
    ensures ParseInt("-" + d).Some? <==> |d| <= MaxStrDigits
    ensures ParseInt("-" + d).Some? ==> ParseInt("-" + d).value + DigitsValue(d) == 0
  {
    var s := "-" + d;
    assert s[0] == '-' && s[1..] == d;
    assert s[|s| - 1] == d[|d| - 1];
    StripUnpadded(s);
    assert DigitGroups(d);
    DigitCountOfDigits(d);
    ParseNegative(s);
  }

  /** A stripped string starting with `-` parses to the negated value of the
      digit groups after the sign, if they are within the digit limit. */
  lemma ParseNegative(t: string)
    requires |t| > 0 && t[0] == '-' && Strip(t) == t
    ensures ParseInt(t).Some? <==> DigitGroups(t[1..]) && DigitCount(t[1..]) <= MaxStrDigits
    ensures ParseInt(t).Some? ==> ParseInt(t).value + DigitsValue(t[1..]) == 0
  {
  }
}
