/**
 * The handful of Python string operations the interview app relies on,
 * written out so that their behaviour is explicit: `str.isspace`,
 * `str.strip()`, `str.split('\n')`, `sep.join(parts)` and `str(n)` for a
 * natural number, together with a decimal reader that undoes `str(n)`.
 */
module Text {
  import opened Seqs

  datatype Option<T> = None | Some(value: T)

  /** Python's `str.isspace()` on one character: exactly the characters
      that `str.strip()` with no argument removes. */
  predicate IsSpace(c: char) {
    || ('\t' <= c <= '\r')              // \t \n \x0b \x0c \r
    || ('\U{1C}' <= c <= '\U{1F}')      // file, group, record and unit separators
    || c == ' '
    || c == '\U{85}'                    // next line
    || c == '\U{A0}'                    // no-break space
    || c == '\U{1680}'
    || ('\U{2000}' <= c <= '\U{200A}')
    || c == '\U{2028}' || c == '\U{2029}'
    || c == '\U{202F}' || c == '\U{205F}' || c == '\U{3000}'
  }

  /** Every character of `s` is whitespace (the empty string included). */
  predicate IsBlank(s: string) {
    forall i :: 0 <= i < |s| ==> IsSpace(s[i])
  }

  /** No whitespace at either end. */
  predicate Trimmed(s: string) {
    s == [] || (!IsSpace(s[0]) && !IsSpace(s[|s| - 1]))
  }

  /** How many characters `s.lstrip()` drops: the leading whitespace. */
  function LeadingSpaces(s: string): (n: nat)
    ensures n <= |s|
    ensures n < |s| ==> !IsSpace(s[n])
  {
    if s != [] && IsSpace(s[0]) then 1 + LeadingSpaces(s[1..]) else 0
  }

  /** What `s.lstrip()` drops is all whitespace. */
  lemma {:induction false} LeadingSpacesBlank(s: string)
    ensures IsBlank(s[..LeadingSpaces(s)])
  {
    if s != [] && IsSpace(s[0]) {
      LeadingSpacesBlank(s[1..]);
      assert s[..LeadingSpaces(s)] == [s[0]] + s[1..][..LeadingSpaces(s[1..])];
    }
  }

  /** How many characters `s.rstrip()` drops: the trailing whitespace. */
  function TrailingSpaces(s: string): (n: nat)
    ensures n <= |s|
    ensures n < |s| ==> !IsSpace(s[|s| - 1 - n])
  {
    if s != [] && IsSpace(s[|s| - 1]) then 1 + TrailingSpaces(s[..|s| - 1]) else 0
  }

  /** What `s.rstrip()` drops is all whitespace. */
  lemma {:induction false} TrailingSpacesBlank(s: string)
    ensures IsBlank(s[|s| - TrailingSpaces(s)..])
  {
    if s != [] && IsSpace(s[|s| - 1]) {
      var p := s[..|s| - 1];
      TrailingSpacesBlank(p);
      var n := TrailingSpaces(s);
      assert n == TrailingSpaces(p) + 1;
      var tail, tailP := s[|s| - n..], p[|p| - (n - 1)..];
      forall i | 0 <= i < |tail| ensures IsSpace(tail[i]) {
        if i < |tail| - 1 {
          assert tail[i] == tailP[i];
        } else {
          assert tail[i] == s[|s| - 1];
        }
      }
    }
  }

  /** `s.strip()`: the leading whitespace, then the trailing whitespace of
      what is left, removed. */
  function Strip(s: string): (r: string)
    ensures Trimmed(r)
    ensures r == [] <==> IsBlank(s)
  {
    var i := LeadingSpaces(s);
    var t := s[i..];
    var j := TrailingSpaces(t);
    var r := s[i..|s| - j];
    assert r == [] ==> IsBlank(s) by {
      if r == [] {
        LeadingSpacesBlank(s);
        TrailingSpacesBlank(t);
        assert s == s[..i] + t;
        assert t == t[|t| - j..];
      }
    }
    assert r != [] ==> !IsSpace(r[0]) && !IsSpace(r[|r| - 1]) by {
      if r != [] {
        assert r[0] == s[i];
        assert r[|r| - 1] == t[|t| - 1 - j];
      }
    }
    r
  }

  /** `Strip(s)` is `s` with a blank prefix and a blank suffix taken off. */
  lemma StripDecomposes(s: string)
    ensures var k := LeadingSpaces(s);
            && k + |Strip(s)| <= |s|
            && s[k..k + |Strip(s)|] == Strip(s)
            && IsBlank(s[..k]) && IsBlank(s[k + |Strip(s)|..])
  {
    var i := LeadingSpaces(s);
    var t := s[i..];
    var j := TrailingSpaces(t);
    assert IsBlank(s[..i]) by { LeadingSpacesBlank(s); }
    assert IsBlank(s[|s| - j..]) by {
      TrailingSpacesBlank(t);
      DropDrop(s, i, |t| - j);
    }
  }

  /** Conversely, any way of writing `s` as blank + trimmed + blank
      determines `Strip(s)`: the decomposition above is unique. */
  lemma {:induction false} StripUnique(a: string, m: string, b: string)
    requires IsBlank(a) && IsBlank(b) && Trimmed(m)
    ensures Strip(a + m + b) == m
  {
    var s := a + m + b;
    if m == [] {
      assert IsBlank(s) by {
        forall i | 0 <= i < |s| ensures IsSpace(s[i]) {
          if i < |a| { assert s[i] == a[i]; }
          else { assert s[i] == b[i - |a|]; }
        }
      }
    } else {
      assert s == a + (m + b);
      LeadingSpacesPast(a, m + b);
      assert s[|a|..] == m + b;
      TrailingSpacesPast(m, b);
      assert (m + b)[..|m + b| - |b|] == m;
    }
  }

  lemma {:induction false} LeadingSpacesPast(a: string, rest: string)
    requires IsBlank(a) && rest != [] && !IsSpace(rest[0])
    ensures LeadingSpaces(a + rest) == |a|
  {
    if a != [] {
      assert (a + rest)[1..] == a[1..] + rest;
      LeadingSpacesPast(a[1..], rest);
    } else {
      assert a + rest == rest;
    }
  }

  lemma {:induction false} TrailingSpacesPast(m: string, b: string)
    requires IsBlank(b) && m != [] && !IsSpace(m[|m| - 1])
    ensures TrailingSpaces(m + b) == |b|
  {
    if b != [] {
      assert (m + b)[..|m + b| - 1] == m + b[..|b| - 1];
      TrailingSpacesPast(m, b[..|b| - 1]);
    } else {
      assert m + b == m;
    }
  }

  /** A trimmed string is its own strip; in particular stripping twice is
      stripping once. */
  lemma StripTrimmed(m: string)
    requires Trimmed(m)
    ensures Strip(m) == m
  {
    StripUnique([], m, []);
    assert [] + m + [] == m;
  }

  lemma StripIdempotent(s: string)
    ensures Strip(Strip(s)) == Strip(s)
  {
    StripTrimmed(Strip(s));
  }

  /** `s` holds no '\n'. */
  predicate IsLine(s: string) {
    forall j :: 0 <= j < |s| ==> s[j] != '\n'
  }

  /** Index of the first '\n' in `s`, or `|s|` when there is none. */
  function LineEnd(s: string): (i: nat)
    ensures i <= |s|
    ensures forall j :: 0 <= j < i ==> s[j] != '\n'
    ensures i < |s| ==> s[i] == '\n'
  {
    if s == [] || s[0] == '\n' then 0 else LineEnd(s[1..]) + 1
  }

  /** A string without '\n' is one whole line. */
  lemma {:induction false} LineEndOfLine(s: string)
    requires IsLine(s)
    ensures LineEnd(s) == |s|
  {
    if s != [] {
      LineEndOfLine(s[1..]);
    }
  }

  /** `s.split('\n')`: the pieces between newlines, always at least one
      (the empty string splits into `[""]`, a trailing newline gives a
      trailing empty piece). */
  function SplitLines(s: string): (lines: seq<string>)
    ensures |lines| >= 1
    decreases |s|
  {
    var i := LineEnd(s);
    if i == |s| then [s] else [s[..i]] + SplitLines(s[i + 1..])
  }

  /** No piece of a split holds a '\n'. */
  lemma {:induction false} SplitLinesAreLines(s: string)
    ensures forall k :: 0 <= k < |SplitLines(s)| ==> IsLine(SplitLines(s)[k])
    decreases |s|
  {
    var i := LineEnd(s);
    if i < |s| {
      SplitLinesAreLines(s[i + 1..]);
      var rest := SplitLines(s[i + 1..]);
      assert SplitLines(s) == [s[..i]] + rest;
      forall k | 0 < k < |SplitLines(s)| ensures IsLine(SplitLines(s)[k]) {
        assert SplitLines(s)[k] == rest[k - 1];
      }
    }
  }

  /** Every piece of a split of a whitespace-only string is whitespace-only. */
  lemma {:induction false} SplitLinesBlank(s: string)
    requires IsBlank(s)
    ensures forall k :: 0 <= k < |SplitLines(s)| ==> IsBlank(SplitLines(s)[k])
    decreases |s|
  {
    var i := LineEnd(s);
    if i < |s| {
      assert IsBlank(s[i + 1..]);
      SplitLinesBlank(s[i + 1..]);
      var rest := SplitLines(s[i + 1..]);
      assert SplitLines(s) == [s[..i]] + rest;
      forall k | 0 <= k < |SplitLines(s)| ensures IsBlank(SplitLines(s)[k]) {
        if k > 0 {
          assert SplitLines(s)[k] == rest[k - 1];
        }
      }
    }
  }

  /** `sep.join(parts)`. */
  function Join(sep: string, parts: seq<string>): (r: string)
    ensures parts == [] ==> r == []
    ensures |parts| == 1 ==> r == parts[0]
    ensures |parts| >= 1 ==> |r| >= |parts[0]|
  {
    if |parts| == 0 then []
    else if |parts| == 1 then parts[0]
    else parts[0] + sep + Join(sep, parts[1..])
  }

  /** Joining two non-empty lists is joining each and gluing with `sep`. */
  lemma {:induction false} JoinAppend(sep: string, xs: seq<string>, ys: seq<string>)
    requires |xs| >= 1 && |ys| >= 1
    ensures Join(sep, xs + ys) == Join(sep, xs) + sep + Join(sep, ys)
  {
    if |xs| == 1 {
      assert (xs + ys)[1..] == ys;
    } else {
      assert (xs + ys)[1..] == xs[1..] + ys;
      JoinAppend(sep, xs[1..], ys);
    }
  }

  /** Joining the pieces of a split with '\n' gives back the string. */
  lemma {:induction false} JoinSplitLines(s: string)
    ensures Join("\n", SplitLines(s)) == s
    decreases |s|
  {
    var i := LineEnd(s);
    if i < |s| {
      var rest := SplitLines(s[i + 1..]);
      JoinSplitLines(s[i + 1..]);
      assert SplitLines(s) == [s[..i]] + rest;
      JoinCons("\n", s[..i], rest);
      Reassemble(s, i);
      assert [s[i]] == "\n";
    }
  }

  /** Splitting is compositional over a line break: the pieces of
      `a + "\n" + b` are the pieces of `a` followed by those of `b`. */
  lemma SplitLinesAppend(a: string, b: string)
    ensures SplitLines(a + "\n" + b) == SplitLines(a) + SplitLines(b)
  {
    var la, lb := SplitLines(a), SplitLines(b);
    assert Join("\n", la + lb) == a + "\n" + b by {
      JoinSplitLines(a);
      JoinSplitLines(b);
      JoinAppend("\n", la, lb);
    }
    assert forall k :: 0 <= k < |la + lb| ==> IsLine((la + lb)[k]) by {
      SplitLinesAreLines(a);
      SplitLinesAreLines(b);
      LinesAppend(la, lb);
    }
    SplitLinesJoin(la + lb);
  }

  lemma LinesAppend(xs: seq<string>, ys: seq<string>)
    requires forall k :: 0 <= k < |xs| ==> IsLine(xs[k])
    requires forall k :: 0 <= k < |ys| ==> IsLine(ys[k])
    ensures forall k :: 0 <= k < |xs + ys| ==> IsLine((xs + ys)[k])
  {
    forall k | 0 <= k < |xs + ys| ensures IsLine((xs + ys)[k]) {
      if k >= |xs| {
        assert (xs + ys)[k] == ys[k - |xs|];
      }
    }
  }

  /** Joining a list with one more piece in front. */
  lemma JoinCons(sep: string, first: string, rest: seq<string>)
    requires |rest| >= 1
    ensures Join(sep, [first] + rest) == first + sep + Join(sep, rest)
  {
    assert ([first] + rest)[1..] == rest;
  }

  /** Splitting a '\n'-join of newline-free pieces gives back the pieces. */
  lemma {:induction false} SplitLinesJoin(parts: seq<string>)
    requires |parts| >= 1
    requires forall k :: 0 <= k < |parts| ==> IsLine(parts[k])
    ensures SplitLines(Join("\n", parts)) == parts
  {
    if |parts| > 1 {
      SplitLinesJoin(parts[1..]);
      SplitLinesCons(parts[0], Join("\n", parts[1..]));
    }
  }

  /** A newline-free first line splits off as the first piece. */
  lemma SplitLinesCons(p: string, rest: string)
    requires IsLine(p)
    ensures SplitLines(p + "\n" + rest) == [p] + SplitLines(rest)
  {
    var s := p + "\n" + rest;
    LineEndAt(p, "\n" + rest);
    assert s == p + ("\n" + rest);
    assert s[..|p|] == p;
    assert s[|p| + 1..] == rest;
  }

  lemma {:induction false} LineEndAt(p: string, rest: string)
    requires IsLine(p) && rest != [] && rest[0] == '\n'
    ensures LineEnd(p + rest) == |p|
  {
    if p == [] {
      assert p + rest == rest;
    } else {
      assert (p + rest)[1..] == p[1..] + rest;
      LineEndAt(p[1..], rest);
    }
  }

  /** The decimal digit character for `d`. */
  function DigitChar(d: nat): (c: char)
    requires d < 10
    ensures '0' <= c <= '9'
  {
    ['0', '1', '2', '3', '4', '5', '6', '7', '8', '9'][d]
  }

  predicate IsDigit(c: char) {
    '0' <= c <= '9'
  }

  predicate AllDigits(s: string) {
    forall i :: 0 <= i < |s| ==> IsDigit(s[i])
  }

  /** `str(n)` for a natural number: base ten, no sign, no leading zero. */
  function NatToString(n: nat): (r: string)
    ensures r != [] && AllDigits(r)
    ensures r[0] == '0' ==> n == 0 && r == "0"
  {
    if n < 10 then [DigitChar(n)]
    else NatToString(n / 10) + [DigitChar(n % 10)]
  }

  /** The value of a string of decimal digits, most significant first. */
  function DecimalValue(s: string): nat
    requires AllDigits(s)
  {
    if s == [] then 0
    else DecimalValue(s[..|s| - 1]) * 10 + (s[|s| - 1] as int - '0' as int)
  }

  /** Reading back `str(n)` gives `n`. */
  lemma {:induction false} DecimalValueOfNatToString(n: nat)
    ensures DecimalValue(NatToString(n)) == n
  {
    if n >= 10 {
      var r := NatToString(n);
      DecimalValueOfNatToString(n / 10);
      assert r[..|r| - 1] == NatToString(n / 10);
    }
  }

  /** Hence `str` is one-to-one on naturals. */
  lemma NatToStringInjective(m: nat, n: nat)
    requires m != n
    ensures NatToString(m) != NatToString(n)
  {
    DecimalValueOfNatToString(m);
    DecimalValueOfNatToString(n);
  }
}
