/** Shared helpers: bytes, ASCII case mapping as done by the C library in the
    "C" locale, decimal formatting in the style of printf's %d, and splitting
    and joining strings on a delimiter. */
module Text {

  /** An unsigned 8-bit value, as `u8` / `unsigned char`. */
  newtype byte = x: int | 0 <= x < 256

  /** 2^64: the modulus of `size_t` / `uint64_t` arithmetic. */
  const U64: int := 0x1_0000_0000_0000_0000

  predicate IsLowerAscii(c: char) { 'a' <= c <= 'z' }
  predicate IsUpperAscii(c: char) { 'A' <= c <= 'Z' }
  predicate IsDigit(c: char) { '0' <= c <= '9' }

  /** `toupper` in the "C" locale: only a-z change. */
  function ToUpperChar(c: char): (r: char)
    ensures IsLowerAscii(c) ==> IsUpperAscii(r) && r as int == c as int - 32
    ensures !IsLowerAscii(c) ==> r == c
    ensures !IsLowerAscii(r)
  {
    if IsLowerAscii(c) then (c as int - 32) as char else c
  }

  /** `tolower` in the "C" locale: only A-Z change. */
  function ToLowerChar(c: char): (r: char)
    ensures IsUpperAscii(c) ==> IsLowerAscii(r) && r as int == c as int + 32
    ensures !IsUpperAscii(c) ==> r == c
  {
    if IsUpperAscii(c) then (c as int + 32) as char else c
  }

  /** The string with every character passed through `toupper`. */
  function ToUpper(s: string): (r: string)
    ensures |r| == |s|
    ensures forall i :: 0 <= i < |s| ==> r[i] == ToUpperChar(s[i])
  {
    if s == [] then [] else [ToUpperChar(s[0])] + ToUpper(s[1..])
  }

  function ToLower(s: string): (r: string)
    ensures |r| == |s|
    ensures forall i :: 0 <= i < |s| ==> r[i] == ToLowerChar(s[i])
  {
    if s == [] then [] else [ToLowerChar(s[0])] + ToLower(s[1..])
  }

  predicate HasLower(s: string) { exists i :: 0 <= i < |s| && IsLowerAscii(s[i]) }

  /** Case-insensitive comparisons (ASCII letters only). */
  predicate EqualsNoCase(a: string, b: string) { ToLower(a) == ToLower(b) }

  predicate StartsWithNoCase(s: string, prefix: string)
  {
    |prefix| <= |s| && EqualsNoCase(s[..|prefix|], prefix)
  }

  predicate EndsWithNoCase(s: string, suffix: string)
  {
    |suffix| <= |s| && EqualsNoCase(s[|s| - |suffix|..], suffix)
  }

  function DigitChar(d: nat): (c: char)
    requires d < 10
    ensures IsDigit(c) && c as int - '0' as int == d
  {
    ('0' as int + d) as char
  }

  /** Decimal digits of a natural number, most significant first, no leading zeros. */
  function NatToString(n: nat): (s: string)
    ensures |s| >= 1
    ensures forall i :: 0 <= i < |s| ==> IsDigit(s[i])
    decreases n
  {
    if n < 10 then [DigitChar(n)] else NatToString(n / 10) + [DigitChar(n % 10)]
  }

  /** printf's %d: a minus sign for negative values, then the digits. */
  function IntToString(i: int): (s: string)
    ensures |s| >= 1
    ensures i >= 0 ==> IsDigit(s[0])
    ensures i < 0 ==> s[0] == '-'
  {
    if i < 0 then "-" + NatToString(-i) else NatToString(i)
  }

  /** Cut `s` at every occurrence of `d`; every piece is kept, including empty ones. */
  function Split(s: string, d: char): (parts: seq<string>)
    ensures |parts| >= 1
    ensures forall k :: 0 <= k < |parts| ==> d !in parts[k]
    decreases |s|
  {
    if d !in s then [s]
    else
      var i := IndexOf(s, d);
      [s[..i]] + Split(s[i + 1..], d)
  }

  /** Index of the first occurrence of `c` in `s`. */
  function IndexOf(s: string, c: char): (i: nat)
    requires c in s
    ensures i < |s| && s[i] == c && c !in s[..i]
  {
    if s[0] == c then 0 else 1 + IndexOf(s[1..], c)
  }

  /** The pieces glued together with `d` between consecutive ones. */
  function Join(parts: seq<string>, d: char): string
  {
    if |parts| == 0 then ""
    else if |parts| == 1 then parts[0]
    else parts[0] + [d] + Join(parts[1..], d)
  }

  /** Joining one more piece appends the delimiter and the piece. */
  lemma {:induction false} JoinSnoc(parts: seq<string>, last: string, d: char)
    requires parts != []
    ensures Join(parts + [last], d) == Join(parts, d) + [d] + last
  {
    if |parts| > 1 {
      assert (parts + [last])[1..] == parts[1..] + [last];
      JoinSnoc(parts[1..], last, d);
    }
  }

  /** Splitting a joined list gives the list back, as long as no piece contains the delimiter. */
  lemma {:induction false} SplitJoin(parts: seq<string>, d: char)
    requires |parts| >= 1
    requires forall k :: 0 <= k < |parts| ==> d !in parts[k]
    ensures Split(Join(parts, d), d) == parts
  {
    if |parts| > 1 {
      var s := Join(parts, d);
      var tail := Join(parts[1..], d);
      assert s == parts[0] + [d] + tail;
      assert s[|parts[0]|] == d;
      assert d in s;
      IndexOfConcat(parts[0], d, tail);
      assert s[IndexOf(s, d) + 1..] == tail;
      assert s[..IndexOf(s, d)] == parts[0];
      SplitJoin(parts[1..], d);
    }
  }

  lemma {:induction false} IndexOfConcat(a: string, d: char, b: string)
    requires d !in a
    ensures d in a + [d] + b && IndexOf(a + [d] + b, d) == |a|
  {
    var s := a + [d] + b;
    assert s[|a|] == d;
    if a != [] {
      assert s[0] == a[0];
      assert s[1..] == a[1..] + [d] + b;
      IndexOfConcat(a[1..], d, b);
    }
  }

  /** Result of scanning one `%d` conversion: the value and the unread rest. */
  datatype Scanned = Scanned(value: int, rest: string)

  predicate IsSpace(c: char)
  {
    c == ' ' || c == '\t' || c == '\n' || c == '\r' || c == '\U{000B}' || c == '\U{000C}'
  }

  function SkipSpace(s: string): string
  {
    if s != [] && IsSpace(s[0]) then SkipSpace(s[1..]) else s
  }

  /** Length of the longest prefix of decimal digits. */
  function DigitRun(s: string): (n: nat)
    ensures n <= |s|
  {
    if s != [] && IsDigit(s[0]) then 1 + DigitRun(s[1..]) else 0
  }

  /** The decimal value of a digit string, most significant digit first. */
  function DigitsValue(s: string): int
    decreases |s|
  {
    if s == [] then 0
    else DigitsValue(s[..|s| - 1]) * 10 + (s[|s| - 1] as int - '0' as int)
  }

  /** sscanf's `%d`: optional white space, an optional sign, then at least one digit
      (as many as there are). None when no number can be read. */
  function ScanInt(s: string): (r: Option<Scanned>)
  {
    ScanSigned(SkipSpace(s))
  }

  /** Length of an optional leading sign. */
  function SignLen(t: string): (k: nat)
    ensures k <= |t|
  {
    if t != [] && (t[0] == '-' || t[0] == '+') then 1 else 0
  }

  function ScanSigned(t: string): (r: Option<Scanned>)
  {
    var k := SignLen(t);
    ScanMagnitude(k == 1 && t[0] == '-', t[k..])
  }

  /** The digits after the sign: at least one, as many as there are. */
  function ScanMagnitude(negative: bool, u: string): (r: Option<Scanned>)
  {
    var n := DigitRun(u);
    if n == 0 then None
    else
      var mag := DigitsValue(u[..n]);
      Some(Scanned(if negative then -mag else mag, u[n..]))
  }

  datatype Option<T> = None | Some(value: T)

  lemma {:induction false} DigitsValueOfNat(n: nat)
    ensures DigitRun(NatToString(n)) == |NatToString(n)|
    ensures DigitsValue(NatToString(n)) == n
    decreases n
  {
    var s := NatToString(n);
    AllDigitsRun(s);
    if n >= 10 {
      DigitsValueOfNat(n / 10);
      assert s[..|s| - 1] == NatToString(n / 10);
    }
  }

  lemma {:induction false} AllDigitsRun(s: string)
    requires forall i :: 0 <= i < |s| ==> IsDigit(s[i])
    ensures DigitRun(s) == |s|
  {
    if s != [] {
      AllDigitsRun(s[1..]);
    }
  }

  /** A digit run stops where the digits stop. */
  lemma {:induction false} DigitRunConcat(u: string, rest: string)
    requires forall k :: 0 <= k < |u| ==> IsDigit(u[k])
    requires rest == [] || !IsDigit(rest[0])
    ensures DigitRun(u + rest) == |u|
  {
    if u != [] {
      assert (u + rest)[1..] == u[1..] + rest;
      DigitRunConcat(u[1..], rest);
    } else {
      assert u + rest == rest;
    }
  }

  lemma SkipSpaceStops(s: string)
    requires s == [] || !IsSpace(s[0])
    ensures SkipSpace(s) == s
  {
  }

  lemma ScanMagnitudeOf(negative: bool, u: string, rest: string)
    requires |u| >= 1 && forall k :: 0 <= k < |u| ==> IsDigit(u[k])
    requires rest == [] || !IsDigit(rest[0])
    ensures ScanMagnitude(negative, u + rest) ==
      Some(Scanned(if negative then -DigitsValue(u) else DigitsValue(u), rest))
  {
    var v := u + rest;
    DigitRunConcat(u, rest);
    assert v[..|u|] == u && v[|u|..] == rest;
  }

  lemma ScanDigits(u: string, rest: string)
    requires |u| >= 1 && forall k :: 0 <= k < |u| ==> IsDigit(u[k])
    requires rest == [] || !IsDigit(rest[0])
    ensures ScanInt(u + rest) == Some(Scanned(DigitsValue(u), rest))
  {
    var s := u + rest;
    assert s[0] == u[0];
    SkipSpaceStops(s);
    assert SignLen(s) == 0;
    assert s[0..] == s;
    assert ScanSigned(s) == ScanMagnitude(false, s);
    ScanMagnitudeOf(false, u, rest);
    assert ScanInt(s) == ScanSigned(s);
    assert ScanInt(s) == Some(Scanned(DigitsValue(u), rest));
  }

  lemma ScanMinusDigits(u: string, rest: string)
    requires |u| >= 1 && forall k :: 0 <= k < |u| ==> IsDigit(u[k])
    requires rest == [] || !IsDigit(rest[0])
    ensures ScanInt("-" + u + rest) == Some(Scanned(-DigitsValue(u), rest))
  {
    var v := u + rest;
    var s := "-" + v;
    SignedShape(u, rest);
    SkipSpaceStops(s);
    assert SignLen(s) == 1;
    assert ScanSigned(s) == ScanMagnitude(true, v);
    ScanMagnitudeOf(true, u, rest);
    assert ScanInt(s) == ScanSigned(s);
    assert ScanInt(s) == Some(Scanned(-DigitsValue(u), rest));
  }

  lemma SignedShape(u: string, rest: string)
    ensures "-" + u + rest == "-" + (u + rest)
    ensures ("-" + (u + rest))[0] == '-' && ("-" + (u + rest))[1..] == u + rest
  {
  }

  /** Formatting with %d and scanning back with %d gives the number back,
      leaving whatever follows when it does not start with a digit. */
  lemma ScanIntToStringThen(i: int, rest: string)
    requires rest == [] || !IsDigit(rest[0])
    ensures ScanInt(IntToString(i) + rest) == Some(Scanned(i, rest))
  {
    if i < 0 {
      var u := NatToString(-i);
      assert IntToString(i) == "-" + u;
      ScanNegativeThen(-i, rest);
    } else {
      var u := NatToString(i);
      assert IntToString(i) == u;
      ScanNatThen(i, rest);
    }
  }

  lemma ScanNatThen(n: nat, rest: string)
    requires rest == [] || !IsDigit(rest[0])
    ensures ScanInt(NatToString(n) + rest) == Some(Scanned(n, rest))
  {
    DigitsValueOfNat(n);
    ScanDigits(NatToString(n), rest);
  }

  lemma ScanNegativeThen(n: nat, rest: string)
    requires rest == [] || !IsDigit(rest[0])
    ensures ScanInt("-" + NatToString(n) + rest) == Some(Scanned(-(n as int), rest))
  {
    DigitsValueOfNat(n);
    ScanMinusDigits(NatToString(n), rest);
  }

  lemma ScanIntToString(i: int)
    ensures ScanInt(IntToString(i)) == Some(Scanned(i, ""))
  {
    ScanIntToStringThen(i, "");
    assert IntToString(i) + "" == IntToString(i);
  }
}
