/** The pieces of the C library's text handling that the UI stack relies on:
    the NUL terminator, `isspace` in the C locale, and the `%s` and `%d`
    conversions of `sscanf`. Every parser of the stack (configuration
    lines, network messages) is built from these. */
module Scan {
  import opened Common

  /** `isspace` in the "C" locale. */
  predicate IsSpace(c: char) {
    c == ' ' || c == '\t' || c == '\n' || c == '\r' || c == '\U{000B}' || c == '\U{000C}'
  }

  /** The blanks the configuration parser strips by hand: space and tab. */
  predicate IsBlank(c: char) {
    c == ' ' || c == '\t'
  }

  predicate IsDigit(c: char) {
    '0' <= c <= '9'
  }

  predicate NotSpace(c: char) {
    !IsSpace(c)
  }

  /** The C string held by a character buffer: everything before the first NUL. */
  function CStr(s: string): (r: string)
    ensures r <= s
    ensures forall i :: 0 <= i < |r| ==> r[i] != '\0'
    ensures |r| < |s| ==> s[|r|] == '\0'
  {
    if |s| == 0 || s[0] == '\0' then [] else [s[0]] + CStr(s[1..])
  }

  /** Advances past leading spaces and tabs. */
  function SkipBlanks(s: string): (r: string)
    ensures |r| <= |s| && r == s[|s| - |r|..]
    ensures forall i :: 0 <= i < |s| - |r| ==> IsBlank(s[i])
    ensures |r| > 0 ==> !IsBlank(r[0])
  {
    if |s| > 0 && IsBlank(s[0]) then SkipBlanks(s[1..]) else s
  }

  /** Advances past leading white space, as every `sscanf` conversion but
      `%c` does before it reads. */
  function SkipSpaces(s: string): (r: string)
    ensures |r| <= |s| && r == s[|s| - |r|..]
    ensures forall i :: 0 <= i < |s| - |r| ==> IsSpace(s[i])
    ensures |r| > 0 ==> !IsSpace(r[0])
  {
    if |s| > 0 && IsSpace(s[0]) then SkipSpaces(s[1..]) else s
  }

  /** Length of the longest prefix that satisfies `ok`. */
  function SpanLen(s: string, ok: char -> bool): (n: nat)
    ensures n <= |s|
    ensures forall i :: 0 <= i < n ==> ok(s[i])
    ensures n < |s| ==> !ok(s[n])
  {
    if |s| > 0 && ok(s[0]) then 1 + SpanLen(s[1..], ok) else 0
  }

  /** `%s`: skips white space, then reads the maximal run of non-space
      characters; fails at the end of the input. Yields the word and the
      unread rest. */
  function Word(s: string): (r: Option<(string, string)>)
    ensures r.None? <==> forall i :: 0 <= i < |s| ==> IsSpace(s[i])
    ensures r.Some? ==>
      && |r.value.0| > 0
      && (forall i :: 0 <= i < |r.value.0| ==> !IsSpace(r.value.0[i]))
      && (|r.value.1| > 0 ==> IsSpace(r.value.1[0]))
      && r.value.0 + r.value.1 == SkipSpaces(s)
  {
    var t := SkipSpaces(s);
    assert |t| > 0 ==> t[0] == s[|s| - |t|];
    SplitWord(t)
  }

  /** The maximal run of non-space characters at the head of `t`, and the
      rest; none when `t` is empty or starts with white space. */
  function SplitWord(t: string): (r: Option<(string, string)>)
    ensures r.None? <==> |t| == 0 || IsSpace(t[0])
    ensures r.Some? ==>
      && |r.value.0| > 0
      && (forall i :: 0 <= i < |r.value.0| ==> !IsSpace(r.value.0[i]))
      && (|r.value.1| > 0 ==> IsSpace(r.value.1[0]))
      && r.value.0 + r.value.1 == t
  {
    var n := SpanLen(t, NotSpace);
    assert forall i :: 0 <= i < n ==> NotSpace(t[i]);
    assert n < |t| ==> !NotSpace(t[n]);
    if n == 0 then
      None
    else
      assert t[..n] + t[n..] == t;
      Some((t[..n], t[n..]))
  }

  /** Value of a non-empty run of decimal digits. */
  function DigitsValue(ds: string): (v: nat)
    requires forall i :: 0 <= i < |ds| ==> IsDigit(ds[i])
  {
    if |ds| == 0 then 0
    else
      assert IsDigit(ds[|ds| - 1]);
      DigitsValue(ds[..|ds| - 1]) * 10 + (ds[|ds| - 1] as int - '0' as int)
  }

  /** `%d`: skips white space, reads an optional sign and then at least one
      decimal digit; fails when no digit follows. Yields the value and the
      unread rest. */
  function Integer(s: string): (r: Option<(int, string)>)
    ensures r.Some? ==> |r.value.1| < |s|
    ensures r.Some? ==> |r.value.1| > 0 ==> !IsDigit(r.value.1[0])
    ensures var d := AfterSign(SkipSpaces(s));
            r.None? <==> |d| == 0 || !IsDigit(d[0])
    ensures r.Some? ==>
              var t := SkipSpaces(s);
              |r.value.1| < |t| && r.value.1 == t[|t| - |r.value.1|..]
    ensures r.Some? ==> SignedValue(SkipSpaces(s), r.value)
  {
    SignedDigits(SkipSpaces(s))
  }

  /** A leading minus sign. */
  predicate Negative(t: string) {
    |t| > 0 && t[0] == '-'
  }

  /** The text after an optional leading `+` or `-`. */
  function AfterSign(t: string): (d: string)
    ensures d == t || (|t| > 0 && (t[0] == '-' || t[0] == '+') && d == t[1..])
  {
    if |t| > 0 && (t[0] == '-' || t[0] == '+') then t[1..] else t
  }

  /** `v` and `rest` are what `%d` reads from `t` once white space is
      skipped: the digit run after the optional sign, negated after a
      `-`, so never positive after `-` and never negative otherwise. */
  predicate SignedValue(t: string, r: (int, string)) {
    Digits(AfterSign(t)).Some?
    && r.1 == Digits(AfterSign(t)).value.1
    && r.0 == (if Negative(t) then -Digits(AfterSign(t)).value.0 else Digits(AfterSign(t)).value.0)
    && (if Negative(t) then r.0 <= 0 else r.0 >= 0)
  }

  /** The sign and digits of a `%d` conversion, after the white space:
      fails exactly when no digit follows the optional sign; otherwise
      the value of the digit run after it, negated after a `-`, and the
      rest of `t` after the run. */
  function SignedDigits(t: string): (r: Option<(int, string)>)
    ensures r.Some? ==> |r.value.1| < |t|
    ensures r.Some? ==> |r.value.1| > 0 ==> !IsDigit(r.value.1[0])
    ensures var d := AfterSign(t);
            r.None? <==> |d| == 0 || !IsDigit(d[0])
    ensures r.Some? ==> r.value.1 == t[|t| - |r.value.1|..]
    ensures r.Some? ==> SignedValue(t, r.value)
  {
    if |t| > 0 && t[0] == '-' then
      match Digits(t[1..])
      case None => None
      case Some((v, rest)) => Some((-v, rest))
    else if |t| > 0 && t[0] == '+' then
      Digits(t[1..])
    else
      Digits(t)
  }

  /** A non-empty run of decimal digits and the unread rest: fails exactly
      when `u` does not start with a digit; otherwise reads the maximal
      digit run and yields its value. */
  function Digits(u: string): (r: Option<(int, string)>)
    ensures r.Some? ==> r.value.0 >= 0 && |r.value.1| < |u|
    ensures r.Some? ==> |r.value.1| > 0 ==> !IsDigit(r.value.1[0])
    ensures r.None? <==> |u| == 0 || !IsDigit(u[0])
    ensures r.Some? ==>
              var n := |u| - |r.value.1|;
              0 < n <= |u| && u[n..] == r.value.1 && (forall i :: 0 <= i < n ==> IsDigit(u[i]))
              && r.value.0 == DigitsValue(u[..n])
  {
    var n := SpanLen(u, IsDigit);
    if n == 0 then None else Some((DigitsValue(u[..n]), u[n..]))
  }

  /** Decimal text of a natural number (most significant digit first). */
  function Decimal(v: nat): (ds: string)
    ensures |ds| > 0
    ensures forall i :: 0 <= i < |ds| ==> IsDigit(ds[i])
  {
    if v < 10 then [('0' as int + v) as char]
    else Decimal(v / 10) + [('0' as int + v % 10) as char]
  }

  lemma {:induction false} DecimalValue(v: nat)
    ensures DigitsValue(Decimal(v)) == v
  {
    if v >= 10 {
      var ds := Decimal(v);
      assert ds[..|ds| - 1] == Decimal(v / 10);
      DecimalValue(v / 10);
    }
  }

  /** Decimal text of an integer, with a leading minus sign when negative. */
  function SignedDecimal(v: int): (ds: string)
    ensures |ds| > 0 && !IsSpace(ds[0])
  {
    if v < 0 then "-" + Decimal(-v) else Decimal(v)
  }

  /** `%d` reads back what `%d` prints: the round trip of an integer through
      its decimal text, followed by a white-space character. */
  lemma IntegerReadsDecimal(v: int, tail: string)
    requires |tail| > 0 && IsSpace(tail[0])
    ensures Integer(SignedDecimal(v) + tail) == Some((v, tail))
  {
    NoLeadingSpace(SignedDecimal(v) + tail);
    SignedDecimalDigits(v, tail);
  }

  /** The sign and digits of an integer's decimal text read back its value. */
  lemma SignedDecimalDigits(v: int, tail: string)
    requires |tail| > 0 && IsSpace(tail[0])
    ensures SignedDigits(SignedDecimal(v) + tail) == Some((v, tail))
  {
    if v < 0 {
      var m: nat := -v;
      assert SignedDecimal(v) == "-" + Decimal(m);
      assert SignedDecimal(v) + tail == "-" + (Decimal(m) + tail);
      NegativeDigits(m, tail);
    } else {
      assert SignedDecimal(v) == Decimal(v);
      UnsignedDigits(v, tail);
    }
  }

  lemma NoLeadingSpace(s: string)
    requires |s| > 0 && !IsSpace(s[0])
    ensures SkipSpaces(s) == s
  {
  }

  lemma NegativeDigits(m: nat, tail: string)
    requires m > 0 && |tail| > 0 && IsSpace(tail[0])
    ensures SignedDigits("-" + (Decimal(m) + tail)) == Some((-(m as int), tail))
  {
    var u := Decimal(m) + tail;
    DigitsOfDecimal(m, tail);
    MinusPrefix(u);
    MinusDigits("-" + u, m, tail);
  }

  /** After a `-`, `%d` negates what the digit run reads. */
  lemma MinusDigits(t: string, v: int, rest: string)
    requires |t| > 0 && t[0] == '-' && Digits(t[1..]) == Some((v, rest))
    ensures SignedDigits(t) == Some((-v, rest))
  {
  }

  /** Removing a prepended `-` gives the text back. */
  lemma MinusPrefix(u: string)
    ensures ("-" + u)[0] == '-' && ("-" + u)[1..] == u
  {
  }

  lemma UnsignedDigits(m: nat, tail: string)
    requires |tail| > 0 && IsSpace(tail[0])
    ensures SignedDigits(Decimal(m) + tail) == Some((m as int, tail))
  {
    var ds := Decimal(m);
    assert (ds + tail)[0] == ds[0] && IsDigit(ds[0]);
    DigitsOfDecimal(m, tail);
  }

  lemma DigitsOfDecimal(m: nat, tail: string)
    requires |tail| > 0 && !IsDigit(tail[0])
    ensures Digits(Decimal(m) + tail) == Some((m, tail))
  {
    var ds := Decimal(m);
    var u := ds + tail;
    SpanAtLeast(u, IsDigit, |ds|);
    assert u[..|ds|] == ds;
    assert u[|ds|..] == tail;
    DecimalValue(m);
  }

  lemma SpanAtLeast(s: string, ok: char -> bool, k: nat)
    requires k < |s|
    requires forall i :: 0 <= i < k ==> ok(s[i])
    requires !ok(s[k])
    ensures SpanLen(s, ok) == k
  {
  }

  /** A string without NUL characters is its own C string. */
  lemma {:induction false} CStrNoNul(s: string)
    requires forall i :: 0 <= i < |s| ==> s[i] != '\0'
    ensures CStr(s) == s
  {
    if |s| > 0 {
      CStrNoNul(s[1..]);
      assert [s[0]] + s[1..] == s;
    }
  }

  /** `%s` reads back a word written in front of white space. */
  lemma WordReads(w: string, tail: string)
    requires |w| > 0 && forall i :: 0 <= i < |w| ==> !IsSpace(w[i])
    requires |tail| > 0 && IsSpace(tail[0])
    ensures Word(w + tail) == Some((w, tail))
  {
    var s := w + tail;
    NoLeadingSpace(s);
    SpanAtLeast(s, NotSpace, |w|);
    assert s[..|w|] == w && s[|w|..] == tail;
  }

  /** A white-space character in front of a conversion is skipped. */
  lemma WordSkipsSpace(c: char, s: string)
    requires IsSpace(c)
    ensures Word([c] + s) == Word(s)
  {
    assert ([c] + s)[1..] == s;
  }

  lemma IntegerSkipsSpace(c: char, s: string)
    requires IsSpace(c)
    ensures Integer([c] + s) == Integer(s)
  {
    assert ([c] + s)[1..] == s;
  }
}
