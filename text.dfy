/** The Python string built-ins the scraper relies on: str.strip() with no
    argument, str.split(sep) with a one-character separator, str() of an
    integer and a decimal-digit reading of int(). */
module Text {

  datatype Option<T> = None | Some(value: T)

  /** Python's str.isspace() for one character (what str.strip() removes). */
  predicate IsSpace(c: char) {
    || c == ' '
    || '\t' <= c <= '\r'
    || '\U{1C}' <= c <= '\U{1F}'
    || c == '\U{85}' || c == '\U{A0}' || c == '\U{1680}'
    || '\U{2000}' <= c <= '\U{200A}'
    || c == '\U{2028}' || c == '\U{2029}' || c == '\U{202F}' || c == '\U{205F}' || c == '\U{3000}'
  }

  // ---------------------------------------------------------------------
  // str.strip()
  // ---------------------------------------------------------------------

  predicate AllSpace(w: string) {
    forall k :: 0 <= k < |w| ==> IsSpace(w[k])
  }

  /** s with its leading whitespace removed. */
  function StripStart(s: string): string {
    if |s| > 0 && IsSpace(s[0]) then StripStart(s[1..]) else s
  }

  /** s with its trailing whitespace removed. */
  function StripEnd(s: string): string {
    if |s| > 0 && IsSpace(s[|s| - 1]) then StripEnd(s[..|s| - 1]) else s
  }

  /** Python's s.strip(). */
  function Strip(s: string): string {
    StripEnd(StripStart(s))
  }

  /** StripStart removes a whitespace prefix and stops at the first
      character that is not whitespace. */
  lemma {:induction false} StripStartSpec(s: string)
    ensures |StripStart(s)| <= |s| && StripStart(s) == s[|s| - |StripStart(s)|..]
    ensures AllSpace(s[..|s| - |StripStart(s)|])
    ensures StripStart(s) == [] || !IsSpace(StripStart(s)[0])
  {
    if |s| > 0 && IsSpace(s[0]) {
      StripStartSpec(s[1..]);
      var n := |s| - |StripStart(s)|;
      assert s[..n] == [s[0]] + s[1..][..n - 1];
    }
  }

  /** StripEnd removes a whitespace suffix and stops at the last character
      that is not whitespace. */
  lemma {:induction false} StripEndSpec(s: string)
    ensures |StripEnd(s)| <= |s| && StripEnd(s) == s[..|StripEnd(s)|]
    ensures AllSpace(s[|StripEnd(s)|..])
    ensures StripEnd(s) == [] || !IsSpace(StripEnd(s)[|StripEnd(s)| - 1])
  {
    if |s| > 0 && IsSpace(s[|s| - 1]) {
      var t := s[..|s| - 1];
      StripEndSpec(t);
      var n := |StripEnd(s)|;
      assert s[n..] == t[n..] + [s[|s| - 1]];
      assert t[..n] == s[..n];
    }
  }

  /** s.strip() is the part of s left between a whitespace prefix and a
      whitespace suffix. */
  lemma StripSpec(s: string)
    ensures var r := Strip(s);
      exists i :: 0 <= i <= |s| - |r| && s[i..i + |r|] == r && AllSpace(s[..i]) && AllSpace(s[i + |r|..])
  {
    var u := StripStart(s);
    StripStartSpec(s);
    StripEndSpec(u);
    var r := Strip(s);
    var i := |s| - |u|;
    assert u == s[i..];
    assert s[i..i + |r|] == u[..|r|] == r;
    assert s[i + |r|..] == u[|r|..];
  }

  /** s.strip() neither starts nor ends with whitespace. */
  lemma StripEnds(s: string)
    ensures Strip(s) == [] || (!IsSpace(Strip(s)[0]) && !IsSpace(Strip(s)[|Strip(s)| - 1]))
  {
    var u := StripStart(s);
    StripStartSpec(s);
    StripEndSpec(u);
    var r := Strip(s);
    if r != [] {
      assert r[0] == u[0];
    }
  }

  /** A string that neither starts nor ends with whitespace is its own strip;
      in particular strip is idempotent. */
  lemma StripTrimmed(s: string)
    requires s == [] || (!IsSpace(s[0]) && !IsSpace(s[|s| - 1]))
    ensures Strip(s) == s
  {
    assert StripStart(s) == s;
  }

  lemma StripIdempotent(s: string)
    ensures Strip(Strip(s)) == Strip(s)
  {
    StripEnds(s);
    StripTrimmed(Strip(s));
  }

  /** Leading whitespace w in front of a string r that does not start with
      whitespace is exactly what StripStart removes. */
  lemma {:induction false} StripStartOf(w: string, r: string)
    requires AllSpace(w)
    requires r == [] || !IsSpace(r[0])
    ensures StripStart(w + r) == r
    decreases |w|
  {
    if w != [] {
      assert (w + r)[1..] == w[1..] + r;
      StripStartOf(w[1..], r);
    }
  }

  /** Trailing whitespace w after a string r that does not end with
      whitespace is exactly what StripEnd removes. */
  lemma {:induction false} StripEndOf(r: string, w: string)
    requires AllSpace(w)
    requires r == [] || !IsSpace(r[|r| - 1])
    ensures StripEnd(r + w) == r
    decreases |w|
  {
    if w != [] {
      assert (r + w)[..|r + w| - 1] == r + w[..|w| - 1];
      StripEndOf(r, w[..|w| - 1]);
    }
  }

  /** Stripping removes only surrounding whitespace: Strip(lead + t + trail) is
      t when lead and trail are whitespace and t is trimmed. */
  lemma StripSurrounded(lead: string, t: string, trail: string)
    requires AllSpace(lead) && AllSpace(trail)
    requires t == [] || (!IsSpace(t[0]) && !IsSpace(t[|t| - 1]))
    ensures Strip(lead + t + trail) == t
  {
    if t == [] {
      assert lead + t + trail == lead + trail;
      assert AllSpace(lead + trail);
      StripStartOf(lead + trail, []);
      assert lead + trail + [] == lead + trail;
    } else {
      assert lead + t + trail == lead + (t + trail);
      StripStartOf(lead, t + trail);
      StripEndOf(t, trail);
    }
  }

  // ---------------------------------------------------------------------
  // str.split(sep)
  // ---------------------------------------------------------------------

  /** Python's s.split(d) for a one-character separator d: the maximal pieces
      of s between occurrences of d, always at least one (''.split(',') is ['']). */
  function Split(s: string, d: char): (parts: seq<string>)
    ensures |parts| >= 1
    ensures forall i :: 0 <= i < |parts| ==> d !in parts[i]
    decreases |s|
  {
    if s == [] then [""]
    else
      var rest := Split(s[1..], d);
      if s[0] == d then [""] + rest
      else [[s[0]] + rest[0]] + rest[1..]
  }

  /** The inverse of Split: the pieces glued with d between them. */
  function Join(parts: seq<string>, d: char): string
    requires |parts| >= 1
    decreases |parts|
  {
    if |parts| == 1 then parts[0] else parts[0] + [d] + Join(parts[1..], d)
  }

  /** Joining the pieces of s gives s back. */
  lemma {:induction false} JoinSplit(s: string, d: char)
    ensures Join(Split(s, d), d) == s
    decreases |s|
  {
    if s != [] {
      var rest := Split(s[1..], d);
      JoinSplit(s[1..], d);
      if s[0] != d {
        var parts := Split(s, d);
        if |rest| == 1 {
          assert parts == [[s[0]] + rest[0]];
        } else {
          assert parts[1..] == rest[1..];
          assert Join(rest, d) == rest[0] + [d] + Join(rest[1..], d);
        }
      }
    }
  }

  /** Splitting a joined list of d-free pieces gives the pieces back. */
  lemma {:induction false} SplitJoin(parts: seq<string>, d: char)
    requires |parts| >= 1
    requires forall i :: 0 <= i < |parts| ==> d !in parts[i]
    ensures Split(Join(parts, d), d) == parts
    decreases |parts|, |parts[0]|
  {
    if |parts| == 1 {
      SplitNoSeparator(parts[0], d);
    } else if parts[0] == [] {
      assert Join(parts, d) == [d] + Join(parts[1..], d);
      assert Join(parts, d)[1..] == Join(parts[1..], d);
      SplitJoin(parts[1..], d);
    } else {
      var tail := [parts[0][1..]] + parts[1..];
      assert tail[1..] == parts[1..];
      assert Join(parts, d) == [parts[0][0]] + Join(tail, d);
      assert Join(parts, d)[1..] == Join(tail, d);
      SplitJoin(tail, d);
      assert [parts[0][0]] + parts[0][1..] == parts[0];
    }
  }

  lemma {:induction false} SplitNoSeparator(s: string, d: char)
    requires d !in s
    ensures Split(s, d) == [s]
    decreases |s|
  {
    if s != [] {
      SplitNoSeparator(s[1..], d);
      assert [s[0]] + s[1..] == s;
    }
  }

  /** The first piece of p + t, when p contains no d, is p followed by the
      first piece of t. */
  lemma {:induction false} SplitHead(p: string, t: string, d: char)
    requires d !in p
    ensures Split(p + t, d)[0] == p + Split(t, d)[0]
    decreases |p|
  {
    if p == [] {
      assert p + t == t;
    } else {
      assert (p + t)[1..] == p[1..] + t;
      assert (p + t)[0] == p[0] && p[0] != d;
      assert Split(p + t, d)[0] == [p[0]] + Split(p[1..] + t, d)[0];
      SplitHead(p[1..], t, d);
      assert [p[0]] + (p[1..] + Split(t, d)[0]) == p + Split(t, d)[0];
    }
  }

  /** The first piece of a string that starts with the separator (or is empty) is empty. */
  lemma SplitHeadEmpty(t: string, d: char)
    requires t == [] || t[0] == d
    ensures Split(t, d)[0] == ""
  {
  }

  // ---------------------------------------------------------------------
  // str(n) and int(s)
  // ---------------------------------------------------------------------

  predicate IsDigit(c: char) {
    '0' <= c <= '9'
  }

  predicate AllDigits(s: string) {
    forall k :: 0 <= k < |s| ==> IsDigit(s[k])
  }

  function DigitChar(d: nat): (c: char)
    requires d < 10
    ensures IsDigit(c)
  {
    ('0' as int + d) as char
  }

  /** The value of a string of decimal digits, most significant first. */
  function DigitsValue(s: string): nat
    requires AllDigits(s)
  {
    if s == [] then 0 else 10 * DigitsValue(s[..|s| - 1]) + (s[|s| - 1] as int - '0' as int)
  }

  /** Python's str(n) for n >= 0: the decimal digits of n without leading zeros. */
  function ShowNat(n: nat): string {
    if n < 10 then [DigitChar(n)] else ShowNat(n / 10) + [DigitChar(n % 10)]
  }

  /** str(n) is a non-empty run of digits with no leading zero. */
  lemma {:induction false} ShowNatDigits(n: nat)
    ensures |ShowNat(n)| >= 1 && AllDigits(ShowNat(n))
    ensures |ShowNat(n)| > 1 ==> ShowNat(n)[0] != '0'
  {
    if n >= 10 {
      ShowNatDigits(n / 10);
      assert ShowNat(n)[0] == ShowNat(n / 10)[0];
    }
  }

  /** Python's str(i) for any integer: a minus sign before the digits of |i|. */
  function ShowInt(i: int): string {
    if i < 0 then "-" + ShowNat(-i) else ShowNat(i)
  }

  /** int(s) restricted to plain decimal digits: None unless s is a non-empty
      run of digits. */
  function ParseDecimal(s: string): (r: Option<nat>)
    ensures r.Some? <==> |s| > 0 && AllDigits(s)
  {
    if |s| > 0 && AllDigits(s) then Some(DigitsValue(s)) else None
  }

  /** Reading back what str() wrote gives the number. */
  lemma {:induction false} ParseShow(n: nat)
    ensures ParseDecimal(ShowNat(n)) == Some(n)
  {
    ShowNatDigits(n);
    ShowValue(n);
  }

  lemma {:induction false} ShowValue(n: nat)
    ensures AllDigits(ShowNat(n)) && DigitsValue(ShowNat(n)) == n
  {
    var s := ShowNat(n);
    ShowNatDigits(n);
    if n >= 10 {
      ShowValue(n / 10);
      assert s[..|s| - 1] == ShowNat(n / 10);
    }
  }

  /** Different integers are written differently. */
  lemma ShowIntInjective(i: int, j: int)
    requires ShowInt(i) == ShowInt(j)
    ensures i == j
  {
    if i < 0 && j < 0 {
      assert ShowNat(-i) == ShowInt(i)[1..] == ShowInt(j)[1..] == ShowNat(-j);
      ParseShow(-i);
      ParseShow(-j);
    } else if i >= 0 && j >= 0 {
      ParseShow(i);
      ParseShow(j);
    } else if i < 0 {
      ShowNatDigits(j);
    } else {
      ShowNatDigits(i);
    }
  }
}
