/** The pieces of Go's `strings`, `strconv` and `regexp` character classes
    that the bot relies on, over ASCII text held as `seq<char>`. */
module Strings {

  /** White space as `strings.TrimSpace` sees it on ASCII input:
      tab, newline, vertical tab, form feed, carriage return, space. */
  predicate IsAsciiSpace(c: char) {
    c == ' ' || c == '\t' || c == '\n' || c == '\U{B}' || c == '\U{C}' || c == '\r'
  }

  /** RE2's `\s`, which is `[\t\n\f\r ]`: unlike `TrimSpace` it has no vertical tab. */
  predicate IsRegexSpace(c: char) {
    c == ' ' || c == '\t' || c == '\n' || c == '\U{C}' || c == '\r'
  }

  predicate IsDigit(c: char) {
    '0' <= c <= '9'
  }

  predicate IsLetter(c: char) {
    ('A' <= c <= 'Z') || ('a' <= c <= 'z')
  }

  /** RE2's `\w`, which is `[0-9A-Za-z_]`. */
  predicate IsWordChar(c: char) {
    IsDigit(c) || IsLetter(c) || c == '_'
  }

  /** The bracket class `[A-Za-z0-9\-\_]` used for repository and author names. */
  predicate IsNameChar(c: char) {
    IsWordChar(c) || c == '-'
  }

  predicate IsAscii(s: string) {
    forall i :: 0 <= i < |s| ==> s[i] as int < 128
  }

  predicate NoNewline(s: string) {
    forall i :: 0 <= i < |s| ==> s[i] != '\n'
  }

  predicate AllSpace(s: string) {
    forall i :: 0 <= i < |s| ==> IsAsciiSpace(s[i])
  }

  predicate AllDigits(s: string) {
    forall i :: 0 <= i < |s| ==> IsDigit(s[i])
  }

  /** `strings.HasPrefix(s, p)`. */
  predicate HasPrefix(s: string, p: string) {
    |p| <= |s| && s[..|p|] == p
  }

  lemma PlainConcat(a: string, b: string)
    ensures IsAscii(a) && IsAscii(b) ==> IsAscii(a + b)
    ensures NoNewline(a) && NoNewline(b) ==> NoNewline(a + b)
  {
  }

  /** True when `s` has no white space at either end, which is what
      `strings.TrimSpace` leaves behind. */
  predicate IsTrimmed(s: string) {
    s == [] || (!IsAsciiSpace(s[0]) && !IsAsciiSpace(s[|s| - 1]))
  }

  /** Drops the leading white space. */
  function TrimLeft(s: string): (r: string)
    ensures |r| <= |s|
    decreases |s|
  {
    if |s| > 0 && IsAsciiSpace(s[0]) then TrimLeft(s[1..]) else s
  }

  /** Drops the trailing white space. */
  function TrimRight(s: string): (r: string)
    ensures |r| <= |s|
    decreases |s|
  {
    if |s| > 0 && IsAsciiSpace(s[|s| - 1]) then TrimRight(s[..|s| - 1]) else s
  }

  /** `TrimLeft` keeps the suffix of `s` that starts at its first
      non-space character. */
  lemma {:induction false} TrimLeftShape(s: string)
    ensures var r := TrimLeft(s);
            && r == s[|s| - |r|..]
            && AllSpace(s[..|s| - |r|])
            && (r == [] || !IsAsciiSpace(r[0]))
    decreases |s|
  {
    if |s| > 0 && IsAsciiSpace(s[0]) {
      var t := s[1..];
      TrimLeftShape(t);
      var r := TrimLeft(t);
      assert TrimLeft(s) == r;
      assert s[|s| - |r|..] == t[|t| - |r|..];
      assert s[..|s| - |r|] == [s[0]] + t[..|t| - |r|];
    } else {
      assert s[..0] == [];
    }
  }

  /** `TrimRight` keeps the prefix of `s` that ends at its last non-space
      character. */
  lemma {:induction false} TrimRightShape(s: string)
    ensures var r := TrimRight(s);
            && r == s[..|r|]
            && AllSpace(s[|r|..])
            && (r == [] || !IsAsciiSpace(r[|r| - 1]))
    decreases |s|
  {
    if |s| > 0 && IsAsciiSpace(s[|s| - 1]) {
      var t := s[..|s| - 1];
      TrimRightShape(t);
      var r := TrimRight(t);
      assert TrimRight(s) == r;
      assert s[..|r|] == t[..|r|];
      assert s[|r|..] == t[|r|..] + [s[|s| - 1]];
    } else {
      assert s[|s|..] == [];
    }
  }

  /** `strings.TrimSpace` on ASCII text: `s` with white space removed at both ends. */
  function TrimSpace(s: string): (r: string)
    ensures IsTrimmed(r) && |r| <= |s|
  {
    TrimLeftShape(s);
    TrimRightShape(TrimLeft(s));
    TrimRight(TrimLeft(s))
  }

  /** What `TrimSpace` removes is white space, and what it keeps is a
      contiguous part of `s`. */
  lemma TrimSpaceInfix(s: string)
    ensures var i := |s| - |TrimLeft(s)|;
            && i + |TrimSpace(s)| <= |s| && TrimSpace(s) == s[i..i + |TrimSpace(s)|]
            && AllSpace(s[..i]) && AllSpace(s[i + |TrimSpace(s)|..])
  {
    var l := TrimLeft(s);
    TrimLeftShape(s);
    TrimRightShape(l);
    var r := TrimRight(l);
    var i := |s| - |l|;
    assert s[i..i + |r|] == l[..|r|];
    assert s[i + |r|..] == l[|r|..];
  }

  /** Trimmed text is its own trim. */
  lemma TrimSpaceTrimmed(s: string)
    requires IsTrimmed(s)
    ensures TrimSpace(s) == s
  {
    TrimSpaceOfPadded([], s, []);
    assert [] + s + [] == s;
  }

  lemma {:induction false} TrimLeftSpaces(a: string, t: string)
    requires AllSpace(a)
    ensures TrimLeft(a + t) == TrimLeft(t)
    decreases |a|
  {
    if a != [] {
      assert (a + t)[1..] == a[1..] + t;
      TrimLeftSpaces(a[1..], t);
    } else {
      assert a + t == t;
    }
  }

  lemma {:induction false} TrimRightSpaces(t: string, b: string)
    requires AllSpace(b)
    ensures TrimRight(t + b) == TrimRight(t)
    decreases |b|
  {
    if b != [] {
      assert (t + b)[..|t + b| - 1] == t + b[..|b| - 1];
      TrimRightSpaces(t, b[..|b| - 1]);
    } else {
      assert t + b == t;
    }
  }

  /** `TrimSpace` is characterised by its result: whatever trimmed middle `m`
      is padded by white space on both sides, trimming gives back `m`. */
  lemma TrimSpaceOfPadded(a: string, m: string, b: string)
    requires AllSpace(a) && AllSpace(b) && IsTrimmed(m)
    ensures TrimSpace(a + m + b) == m
  {
    assert a + m + b == a + (m + b);
    TrimLeftSpaces(a, m + b);
    if m == [] {
      assert m + b == b + [];
      TrimLeftSpaces(b, []);
    } else {
      assert (m + b)[0] == m[0];
      assert TrimLeft(m + b) == m + b;
      TrimRightSpaces(m, b);
      assert m[|m| - 1] == m[|m| - 1];
    }
  }

  /** Trimming twice is trimming once. */
  lemma TrimSpaceIdempotent(s: string)
    ensures TrimSpace(TrimSpace(s)) == TrimSpace(s)
  {
    var r := TrimSpace(s);
    TrimSpaceOfPadded([], r, []);
    assert [] + r + [] == r;
  }

  /** `strings.Join(xs, sep)`: the elements in order with `sep` between neighbours. */
  function Join(xs: seq<string>, sep: string): (r: string)
    ensures |xs| == 1 ==> r == xs[0]
    ensures |xs| == 0 ==> r == ""
  {
    if |xs| == 0 then ""
    else if |xs| == 1 then xs[0]
    else xs[0] + sep + Join(xs[1..], sep)
  }

  /** Where element `i` starts inside `Join(xs, sep)`. */
  function Offset(xs: seq<string>, sep: string, i: nat): nat
    requires i <= |xs|
  {
    if i == 0 then 0 else Offset(xs, sep, i - 1) + |xs[i - 1]| + |sep|
  }

  lemma {:induction false} OffsetShift(xs: seq<string>, sep: string, i: nat)
    requires 0 < |xs| && i < |xs|
    ensures Offset(xs, sep, i + 1) == |xs[0]| + |sep| + Offset(xs[1..], sep, i)
  {
    if i > 0 {
      OffsetShift(xs, sep, i - 1);
    }
  }

  lemma SliceAfterPrefix(a: string, t: string, lo: nat, hi: nat)
    requires lo <= hi <= |t|
    ensures (a + t)[|a| + lo..|a| + hi] == t[lo..hi]
  {
  }

  lemma JoinHead(xs: seq<string>, sep: string)
    requires |xs| > 1
    ensures |xs[0]| + |sep| <= |Join(xs, sep)|
    ensures Join(xs, sep)[..|xs[0]|] == xs[0]
    ensures Join(xs, sep)[|xs[0]|..|xs[0]| + |sep|] == sep
  {
    var j := Join(xs, sep);
    assert j == xs[0] + sep + Join(xs[1..], sep);
  }

  /** Element `i` of a join sits at `Offset(xs, sep, i)`; the last one ends
      the joined text. */
  lemma {:induction false} JoinElement(xs: seq<string>, sep: string, i: nat)
    requires i < |xs|
    ensures Offset(xs, sep, i) + |xs[i]| <= |Join(xs, sep)|
    ensures Join(xs, sep)[Offset(xs, sep, i)..Offset(xs, sep, i) + |xs[i]|] == xs[i]
    ensures i + 1 == |xs| ==> Offset(xs, sep, i) + |xs[i]| == |Join(xs, sep)|
    decreases |xs|
  {
    if |xs| > 1 {
      var head := xs[0] + sep;
      var tail := xs[1..];
      var jt := Join(tail, sep);
      assert Join(xs, sep) == head + jt;
      if i == 0 {
        JoinHead(xs, sep);
      } else {
        assert tail[i - 1] == xs[i];
        JoinElement(tail, sep, i - 1);
        OffsetShift(xs, sep, i - 1);
        var o := Offset(tail, sep, i - 1);
        SliceAfterPrefix(head, jt, o, o + |xs[i]|);
      }
    }
  }

  /** A separator follows every element but the last. */
  lemma {:induction false} JoinSeparator(xs: seq<string>, sep: string, i: nat)
    requires i + 1 < |xs|
    ensures Offset(xs, sep, i + 1) <= |Join(xs, sep)|
    ensures Join(xs, sep)[Offset(xs, sep, i) + |xs[i]|..Offset(xs, sep, i + 1)] == sep
    decreases |xs|
  {
    var head := xs[0] + sep;
    var tail := xs[1..];
    var jt := Join(tail, sep);
    assert Join(xs, sep) == head + jt;
    if i == 0 {
      JoinHead(xs, sep);
    } else {
      assert tail[i - 1] == xs[i];
      JoinSeparator(tail, sep, i - 1);
      OffsetShift(xs, sep, i - 1);
      OffsetShift(xs, sep, i);
      var o := Offset(tail, sep, i - 1);
      var o' := Offset(tail, sep, i);
      SliceAfterPrefix(head, jt, o + |xs[i]|, o');
    }
  }

  /** The layout of a join: element `i` sits at `Offset(xs, sep, i)`, and a
      separator follows it unless it is the last one. */
  lemma JoinLayout(xs: seq<string>, sep: string, i: nat)
    requires i < |xs|
    ensures Offset(xs, sep, i) + |xs[i]| <= |Join(xs, sep)|
    ensures Join(xs, sep)[Offset(xs, sep, i)..Offset(xs, sep, i) + |xs[i]|] == xs[i]
    ensures i + 1 < |xs| ==>
              Offset(xs, sep, i + 1) <= |Join(xs, sep)| &&
              Join(xs, sep)[Offset(xs, sep, i) + |xs[i]|..Offset(xs, sep, i + 1)] == sep
    ensures i + 1 == |xs| ==> Offset(xs, sep, i) + |xs[i]| == |Join(xs, sep)|
  {
    JoinElement(xs, sep, i);
    if i + 1 < |xs| {
      JoinSeparator(xs, sep, i);
    }
  }

  function DigitChar(d: nat): (c: char)
    requires d < 10
    ensures IsDigit(c) && c as int - '0' as int == d
  {
    ('0' as int + d) as char
  }

  /** `strconv.Itoa` (and `fmt`'s `%v`) on a non-negative integer: its
      decimal digits, with no leading zero unless the number is zero. */
  function Decimal(n: nat): (r: string)
    ensures |r| > 0 && AllDigits(r)
    ensures r[0] == '0' ==> n == 0 && r == "0"
    decreases n
  {
    if n < 10 then [DigitChar(n)] else Decimal(n / 10) + [DigitChar(n % 10)]
  }

  /** The number a string of decimal digits denotes. */
  function DigitsValue(s: string): nat
    requires AllDigits(s)
  {
    if s == [] then 0 else DigitsValue(s[..|s| - 1]) * 10 + (s[|s| - 1] as int - '0' as int)
  }

  /** Reading back the printed star count gives the count. */
  lemma {:induction false} DecimalRoundTrip(n: nat)
    ensures DigitsValue(Decimal(n)) == n
    decreases n
  {
    if n >= 10 {
      var r := Decimal(n);
      var head := Decimal(n / 10);
      assert r == head + [DigitChar(n % 10)];
      assert r[..|r| - 1] == head;
      DecimalRoundTrip(n / 10);
    } else {
      assert Decimal(n)[..0] == [];
    }
  }
}
