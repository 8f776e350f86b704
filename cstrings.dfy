/**
 * The C string helpers the controller uses: NUL-terminated buffers, `strstr`-based
 * `index_of`, `strncmp`-based `starts_with`, `atoi`, and the two `substr` overloads
 * (esp8266/src/stations.cpp).
 *
 * A C string is modelled as the sequence of its characters before the terminator;
 * a `char[]` buffer is an `array<char>` whose C string is `CStr(a[..])`.
 */
module CStrings {

  /** No character of `s` is the terminator. */
  predicate NoNul(s: seq<char>) {
    forall i :: 0 <= i < |s| ==> s[i] != '\0'
  }

  /** Every character of `s` is a non-NUL byte, as in a C string. */
  predicate IsCString(s: seq<char>) {
    forall i :: 0 <= i < |s| ==> 0 < s[i] as int < 256
  }

  function Max0(x: int): nat {
    if x < 0 then 0 else x
  }

  /** The C string held by a buffer: everything before the first NUL. */
  function CStr(s: seq<char>): (r: seq<char>)
    ensures |r| <= |s| && r == s[..|r|]
    ensures NoNul(r)
    ensures |r| < |s| ==> s[|r|] == '\0'
  {
    if s == [] || s[0] == '\0' then []
    else
      var rest := CStr(s[1..]);
      assert s[..|rest| + 1] == [s[0]] + s[1..][..|rest|];
      [s[0]] + rest
  }

  /** The three properties of `CStr` determine it. */
  lemma CStrUnique(s: seq<char>, r: seq<char>)
    requires |r| <= |s| && r == s[..|r|] && NoNul(r)
    requires |r| == |s| || s[|r|] == '\0'
    ensures CStr(s) == r
  {
    var c := CStr(s);
    assert forall i :: 0 <= i < |r| ==> r[i] == s[i];
    assert forall i :: 0 <= i < |c| ==> c[i] == s[i];
  }

  /** A buffer holding a terminator holds a C string shorter than the buffer. */
  lemma CStrTerminated(s: seq<char>)
    requires '\0' in s
    ensures |CStr(s)| < |s|
  {
    var c := CStr(s);
    assert forall i :: 0 <= i < |c| ==> c[i] == s[i];
  }

  /** Reading a buffer from inside its C string gives the rest of that C string. */
  lemma CStrFrom(s: seq<char>, j: nat)
    requires j <= |CStr(s)|
    ensures CStr(s[j..]) == CStr(s)[j..]
  {
    var c := CStr(s);
    var r := c[j..];
    assert r == s[j..][..|r|];
    assert forall i :: 0 <= i < |r| ==> r[i] == c[j + i];
    CStrUnique(s[j..], r);
  }

  /** A character sequence with no NUL, followed by the terminator, reads back as itself. */
  lemma CStrOfTerminated(t: seq<char>, rest: seq<char>)
    requires NoNul(t)
    ensures CStr(t + ['\0'] + rest) == t
  {
    var s := t + ['\0'] + rest;
    assert s[..|t|] == t;
    CStrUnique(s, t);
  }

  /** A buffer that starts with `t` and a terminator holds the C string `t`. */
  lemma CStrOfPrefix(buf: seq<char>, t: seq<char>)
    requires NoNul(t) && |t| < |buf| && buf[..|t| + 1] == t + ['\0']
    ensures CStr(buf) == t
  {
    assert buf == t + ['\0'] + buf[|t| + 1..];
    CStrOfTerminated(t, buf[|t| + 1..]);
  }

  /** `f` occurs in `s` at position `j`. */
  predicate OccursAt(s: seq<char>, f: seq<char>, j: int) {
    0 <= j && j + |f| <= |s| && s[j..j + |f|] == f
  }

  /** The first position at or after `from` where `f` occurs in `s`, or -1. */
  function IndexFrom(s: seq<char>, f: seq<char>, from: nat): (r: int)
    decreases |s| - from
    ensures r == -1 || (from <= r && OccursAt(s, f, r))
    ensures r == -1 ==> forall j :: from <= j ==> !OccursAt(s, f, j)
    ensures r != -1 ==> forall j :: from <= j < r ==> !OccursAt(s, f, j)
  {
    if from + |f| > |s| then -1
    else if s[from..from + |f|] == f then from
    else IndexFrom(s, f, from + 1)
  }

  /** `index_of(str, findstr)`: the position `strstr` finds, or -1 (stations.cpp:458-461). */
  function IndexOf(s: seq<char>, f: seq<char>): (r: int)
    ensures r == -1 || OccursAt(s, f, r)
    ensures r == -1 <==> forall j :: !OccursAt(s, f, j)
    ensures forall j :: 0 <= j < r ==> !OccursAt(s, f, j)
  {
    IndexFrom(s, f, 0)
  }

  /** An occurrence at `j` is the first one when `f`'s first character does not appear before `j`. */
  lemma IndexOfAt(s: seq<char>, f: seq<char>, j: int)
    requires f != [] && OccursAt(s, f, j) && f[0] !in s[..j]
    ensures IndexOf(s, f) == j
  {
    var r := IndexOf(s, f);
    assert r != -1;
    assert s[r] == s[r..r + |f|][0];
    assert forall i :: 0 <= i < j ==> s[..j][i] == s[i];
  }

  /** `f` occurs in `s`, but not at its start, so `index_of` is positive. */
  lemma IndexOfPositive(s: seq<char>, f: seq<char>, j: int)
    requires f != [] && OccursAt(s, f, j) && s[0] != f[0]
    ensures IndexOf(s, f) > 0
  {
    var r := IndexOf(s, f);
    assert r != -1;
    assert s[r] == s[r..r + |f|][0];
  }

  /** `f` does not occur when every first character of it in `s` is followed by a mismatch at offset `m`. */
  lemma NoOccurrence(s: seq<char>, f: seq<char>, m: int)
    requires 0 < m < |f|
    requires forall i :: 0 <= i < |s| - m && s[i] == f[0] ==> s[i + m] != f[m]
    ensures IndexOf(s, f) == -1
  {
    forall j
      ensures !OccursAt(s, f, j)
    {
      if 0 <= j && j + |f| <= |s| {
        assert s[j..j + |f|][0] == s[j];
        assert s[j..j + |f|][m] == s[j + m];
      }
    }
  }

  /** `x` occurs in `a + [x] + b` only at `|a|` when neither `a` nor `b` holds it. */
  lemma OnlyAt(a: seq<char>, x: char, b: seq<char>)
    requires x !in a && x !in b
    ensures forall i :: 0 <= i < |a + [x] + b| && (a + [x] + b)[i] == x ==> i == |a|
  {
    var s := a + [x] + b;
    forall i | 0 <= i < |s|
      ensures s[i] == x ==> i == |a|
    {
      if i < |a| {
        assert s[i] == a[i];
      } else if i > |a| {
        assert s[i] == b[i - |a| - 1];
      }
    }
  }

  /** The first '|' of `a + "|" + b` is the one after `a` when `a` has none. */
  lemma IndexOfSeparator(a: seq<char>, b: seq<char>)
    requires '|' !in a
    ensures IndexOf(a + "|" + b, "|") == |a|
  {
    var s := a + "|" + b;
    assert s[|a|..|a| + 1] == "|";
    assert OccursAt(s, "|", |a|);
    assert forall i :: 0 <= i < |a| ==> s[i] == a[i];
    assert forall j :: OccursAt(s, "|", j) ==> s[j] == s[j..j + 1][0] == '|';
  }

  /**
   * `starts_with(start_str, str)`: `strncmp(start_str, str, strlen(start_str)) == 0`,
   * compared character by character (stations.cpp:463-465).
   */
  function StartsWith(prefix: seq<char>, s: seq<char>): (r: bool)
    ensures r <==> |prefix| <= |s| && s[..|prefix|] == prefix
  {
    if prefix == [] then true
    else if s == [] || s[0] != prefix[0] then false
    else
      var r := StartsWith(prefix[1..], s[1..]);
      assert |prefix| <= |s| ==> s[..|prefix|] == [s[0]] + s[1..][..|prefix| - 1];
      r
  }

  predicate IsDigit(c: char) {
    '0' <= c <= '9'
  }

  predicate IsSpace(c: char) {
    c == ' ' || c == '\t' || c == '\n' || c == '\r' || c == '\U{B}' || c == '\U{C}'
  }

  predicate AllDigits(s: seq<char>) {
    forall i :: 0 <= i < |s| ==> IsDigit(s[i])
  }

  /** `s` with its leading white space removed. */
  function SkipSpaces(s: seq<char>): (r: seq<char>)
    ensures |r| <= |s| && r == s[|s| - |r|..]
    ensures r == [] || !IsSpace(r[0])
  {
    if s != [] && IsSpace(s[0]) then SkipSpaces(s[1..]) else s
  }

  /** The longest prefix of `s` made of decimal digits. */
  function DigitRun(s: seq<char>): (r: seq<char>)
    ensures |r| <= |s| && r == s[..|r|]
    ensures AllDigits(r)
    ensures |r| < |s| ==> !IsDigit(s[|r|])
  {
    if s != [] && IsDigit(s[0]) then
      var rest := DigitRun(s[1..]);
      assert s[..|rest| + 1] == [s[0]] + s[1..][..|rest|];
      [s[0]] + rest
    else []
  }

  function DigitValue(c: char): nat
    requires IsDigit(c)
  {
    c as int - '0' as int
  }

  function DigitChar(d: nat): (c: char)
    requires d < 10
    ensures IsDigit(c) && DigitValue(c) == d
  {
    ('0' as int + d) as char
  }

  /** The number a run of decimal digits denotes. */
  function DecimalValue(ds: seq<char>): nat
    requires AllDigits(ds)
  {
    if ds == [] then 0 else DecimalValue(ds[..|ds| - 1]) * 10 + DigitValue(ds[|ds| - 1])
  }

  /** The decimal spelling of `n`, without leading zeros. */
  function NatToDecimal(n: nat): (ds: seq<char>)
    ensures ds != [] && AllDigits(ds)
  {
    if n < 10 then [DigitChar(n)] else NatToDecimal(n / 10) + [DigitChar(n % 10)]
  }

  /**
   * `atoi`: optional leading white space, an optional sign, then the longest run of
   * decimal digits; 0 when there are none.
   */
  function Atoi(s: seq<char>): (r: int)
    ensures r < 0 ==> SkipSpaces(s) != [] && SkipSpaces(s)[0] == '-'
    ensures AllDigits(s) ==> r == DecimalValue(s)
  {
    var t := SkipSpaces(s);
    assert AllDigits(s) && s != [] ==> t == s && DigitRun(s) == s by {
      if AllDigits(s) && s != [] {
        assert IsDigit(s[0]) && !IsSpace(s[0]);
        assert s + [] == s;
        DigitRunOfDigits(s, []);
      }
    }
    if t != [] && t[0] == '-' then -(DecimalValue(DigitRun(t[1..])) as int)
    else if t != [] && t[0] == '+' then DecimalValue(DigitRun(t[1..]))
    else DecimalValue(DigitRun(t))
  }

  lemma {:induction false} DecimalRoundTrip(n: nat)
    ensures DecimalValue(NatToDecimal(n)) == n
  {
    if n >= 10 {
      var ds := NatToDecimal(n);
      assert ds[..|ds| - 1] == NatToDecimal(n / 10);
      DecimalRoundTrip(n / 10);
    }
  }

  /** Text that starts with a digit is read as its leading digit run. */
  lemma AtoiOfDigitFirst(s: seq<char>)
    requires s != [] && IsDigit(s[0])
    ensures Atoi(s) == DecimalValue(DigitRun(s))
  {
    assert !IsSpace(s[0]) && s[0] != '-' && s[0] != '+';
    assert SkipSpaces(s) == s;
  }

  /** `atoi` reads back a decimal number that is followed by a non-digit or by nothing. */
  lemma AtoiOfDecimal(n: nat, rest: seq<char>)
    requires rest == [] || !IsDigit(rest[0])
    ensures Atoi(NatToDecimal(n) + rest) == n
  {
    var ds := NatToDecimal(n);
    assert (ds + rest)[0] == ds[0];
    AtoiOfDigitFirst(ds + rest);
    DigitRunOfDigits(ds, rest);
    DecimalRoundTrip(n);
  }

  /** The digit run of an all-digit prefix followed by a non-digit is that prefix. */
  lemma DigitRunOfDigits(ds: seq<char>, rest: seq<char>)
    requires AllDigits(ds)
    requires rest == [] || !IsDigit(rest[0])
    ensures DigitRun(ds + rest) == ds
  {
    var s := ds + rest;
    var r := DigitRun(s);
    assert forall i :: 0 <= i < |ds| ==> IsDigit(s[i]);
    assert |ds| < |s| ==> !IsDigit(s[|ds|]);
    assert forall i :: 0 <= i < |r| ==> IsDigit(s[i]);
    assert s[..|ds|] == ds;
  }

  /** Text that starts with a letter (such as "on") reads as 0. */
  lemma AtoiOfNonNumeric(s: seq<char>)
    requires s != [] && !IsSpace(s[0]) && !IsDigit(s[0]) && s[0] != '-' && s[0] != '+'
    ensures Atoi(s) == 0
  {
    assert SkipSpaces(s) == s;
  }

  /**
   * `substr(s, sub, p, l)` (stations.cpp:467-475): copies exactly `l` characters of `s`
   * from position `p` into `sub`, then writes a terminator; a negative `l` copies nothing.
   */
  method Substr(s: array<char>, sub: array<char>, p: int, l: int)
    requires s != sub
    requires 0 <= p && p + Max0(l) <= s.Length
    requires Max0(l) < sub.Length
    modifies sub
    ensures sub[..Max0(l)] == s[p..p + Max0(l)]
    ensures sub[Max0(l)] == '\0'
    ensures forall j :: Max0(l) < j < sub.Length ==> sub[j] == old(sub[j])
  {
    var c := 0;
    while c < l
      invariant 0 <= c <= Max0(l)
      invariant sub[..c] == s[p..p + c]
      invariant forall j :: c <= j < sub.Length ==> sub[j] == old(sub[j])
    {
      sub[c] := s[p + c];
      c := c + 1;
    }
    sub[c] := '\0';
  }

  /**
   * `substr(s, sub, p)` (stations.cpp:477-489): copies the C string of `s` that starts at
   * `p`, its terminator included, then writes one more terminator, so it fills
   * `|CStr(s[p..])| + 2` characters of `sub`. The C `do ... while` is unrolled once.
   */
  method SubstrFrom(s: array<char>, sub: array<char>, p: int)
    requires s != sub
    requires 0 <= p <= s.Length && '\0' in s[p..]
    requires |CStr(s[p..])| + 2 <= sub.Length
    modifies sub
    ensures sub[..|CStr(s[p..])| + 2] == CStr(s[p..]) + ['\0', '\0']
    ensures forall j :: |CStr(s[p..])| + 2 <= j < sub.Length ==> sub[j] == old(sub[j])
    ensures CStr(sub[..]) == CStr(s[p..])
  {
    ghost var t := CStr(s[p..]);
    ghost var n := |t|;
    CStrTerminated(s[p..]);
    assert s[p + n] == '\0';
    assert forall i :: 0 <= i < n ==> s[p + i] == t[i];
    var c := 0;
    var ch := s[p];
    sub[0] := ch;
    c := 1;
    while ch != '\0'
      invariant 1 <= c <= n + 1
      invariant ch == s[p + c - 1]
      invariant forall j :: 0 <= j < c ==> sub[j] == s[p + j]
      invariant forall j :: c <= j < sub.Length ==> sub[j] == old(sub[j])
      decreases n + 1 - c
    {
      ch := s[p + c];
      sub[c] := ch;
      c := c + 1;
    }
    assert c == n + 1;
    assert sub[..c] == t + ['\0'];
    sub[c] := '\0';
    assert sub[..c + 1] == sub[..c] + ['\0'];
    CStrOfPrefix(sub[..], t);
  }
}
