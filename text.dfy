/**
 * The Ruby string primitives the engine is built from, written out
 * explicitly: the `\s` and `\d` classes, `String#split("\n")`,
 * `Array#join`, `Integer#to_s`, `String#to_i`, `"%Wd"` formatting and
 * `String#strip.empty?`.
 */
module Text {

  import opened Wrappers

  /** Ruby's `\s`, which is also the whitespace `String#to_i` skips. */
  predicate IsSpace(c: char) {
    c == ' ' || c == '\t' || c == '\n' || c == '\U{0B}' || c == '\U{0C}' || c == '\r'
  }

  /** Ruby's `\d` (ASCII digits only). */
  predicate IsDigit(c: char) {
    '0' <= c <= '9'
  }

  predicate AllDigits(s: string) {
    forall i :: 0 <= i < |s| ==> IsDigit(s[i])
  }

  predicate StartsWith(s: string, prefix: string) {
    |prefix| <= |s| && s[..|prefix|] == prefix
  }

  predicate NoNewline(s: string) {
    '\n' !in s
  }

  predicate NoNewlines(ls: seq<string>) {
    forall i :: 0 <= i < |ls| ==> NoNewline(ls[i])
  }

  /** Length of the longest prefix of `s` made of `\s` characters. */
  function LeadingSpaces(s: string): (n: nat)
    ensures n <= |s|
    ensures forall i :: 0 <= i < n ==> IsSpace(s[i])
    ensures n < |s| ==> !IsSpace(s[n])
  {
    if |s| > 0 && IsSpace(s[0]) then 1 + LeadingSpaces(s[1..]) else 0
  }

  /** Length of the longest prefix of `s` made of `\d` characters. */
  function DigitRun(s: string): (n: nat)
    ensures n <= |s|
    ensures AllDigits(s[..n])
    ensures n < |s| ==> !IsDigit(s[n])
  {
    if |s| > 0 && IsDigit(s[0]) then
      var r := 1 + DigitRun(s[1..]);
      assert s[..r] == [s[0]] + s[1..][..r - 1];
      r
    else 0
  }

  /** `s.strip.empty?`: `strip` removes whitespace and NUL characters. */
  predicate Blank(s: string) {
    forall i :: 0 <= i < |s| ==> IsSpace(s[i]) || s[i] == '\0'
  }

  /** The ASCII lower-case of a string (non-letters unchanged). */
  function LowerAscii(s: string): (r: string)
    ensures |r| == |s|
  {
    if s == [] then []
    else
      var c := s[0];
      [if 'A' <= c <= 'Z' then (c as int + 32) as char else c] + LowerAscii(s[1..])
  }

  /** `s =~ /w/i` for a lower-case ASCII word `w`. */
  function ContainsIgnoringCase(s: string, w: string): bool
    decreases |s|
  {
    |w| <= |s| && (LowerAscii(s[..|w|]) == w || ContainsIgnoringCase(s[1..], w))
  }

  // ---------------------------------------------------------------------
  // String#split("\n") and Array#join
  // ---------------------------------------------------------------------

  /** All the pieces of `s` between newlines, empty pieces included. */
  function Fields(s: string): (r: seq<string>)
    ensures |r| >= 1 && NoNewlines(r)
    decreases |s|
  {
    if s == [] then [""]
    else
      var rest := Fields(s[1..]);
      if s[0] == '\n' then [""] + rest
      else [[s[0]] + rest[0]] + rest[1..]
  }

  /** Removes the empty strings at the end, as Ruby's split does. */
  function DropTrailingEmpty(ls: seq<string>): (r: seq<string>)
    ensures |r| <= |ls| && r == ls[..|r|]
    ensures r != [] ==> r[|r| - 1] != ""
    ensures forall i :: |r| <= i < |ls| ==> ls[i] == ""
  {
    if ls == [] then []
    else if ls[|ls| - 1] == "" then DropTrailingEmpty(ls[..|ls| - 1])
    else ls
  }

  /**
   * `s.split("\n")`: the lines of `s`; no line holds a newline and the
   * result never ends with an empty line (trailing empty fields vanish).
   */
  function Split(s: string): (r: seq<string>)
    ensures NoNewlines(r)
    ensures r != [] ==> r[|r| - 1] != ""
  {
    DropTrailingEmpty(Fields(s))
  }

  /** `ls.join(sep)`. */
  function Join(ls: seq<string>, sep: string): string {
    if ls == [] then ""
    else if |ls| == 1 then ls[0]
    else ls[0] + sep + Join(ls[1..], sep)
  }

  /** The lines, each followed by "\n" (how the engine accumulates text). */
  function Terminated(ls: seq<string>): string {
    if ls == [] then "" else ls[0] + "\n" + Terminated(ls[1..])
  }

  lemma TerminatedSnoc(ls: seq<string>, x: string)
    ensures Terminated(ls + [x]) == Terminated(ls) + x + "\n"
  {
    if ls != [] {
      assert (ls + [x])[1..] == ls[1..] + [x];
      TerminatedSnoc(ls[1..], x);
    }
  }

  lemma {:induction false} TerminatedAppend(a: seq<string>, b: seq<string>)
    ensures Terminated(a + b) == Terminated(a) + Terminated(b)
  {
    if a == [] {
      assert a + b == b;
    } else {
      assert (a + b)[1..] == a[1..] + b;
      TerminatedAppend(a[1..], b);
    }
  }

  lemma FieldsOfLine(l: string)
    requires NoNewline(l)
    ensures Fields(l) == [l]
  {
    if l != [] {
      FieldsOfLine(l[1..]);
      assert [l[0]] + l[1..] == l;
    }
  }

  lemma {:induction false} FieldsCons(l: string, rest: string)
    requires NoNewline(l)
    ensures Fields(l + "\n" + rest) == [l] + Fields(rest)
  {
    var s := l + "\n" + rest;
    if l == [] {
      assert s[0] == '\n' && s[1..] == rest;
    } else {
      assert s[0] == l[0] && s[1..] == l[1..] + "\n" + rest;
      FieldsCons(l[1..], rest);
      assert [l[0]] + l[1..] == l;
    }
  }

  lemma {:induction false} FieldsTerminated(ls: seq<string>)
    requires NoNewlines(ls)
    ensures Fields(Terminated(ls)) == ls + [""]
  {
    if ls != [] {
      FieldsTerminated(ls[1..]);
      FieldsCons(ls[0], Terminated(ls[1..]));
      assert ls == [ls[0]] + ls[1..];
    }
  }

  lemma {:induction false} FieldsJoin(ls: seq<string>)
    requires ls != [] && NoNewlines(ls)
    ensures Fields(Join(ls, "\n")) == ls
  {
    if |ls| == 1 {
      FieldsOfLine(ls[0]);
    } else {
      FieldsJoin(ls[1..]);
      FieldsCons(ls[0], Join(ls[1..], "\n"));
      assert ls == [ls[0]] + ls[1..];
    }
  }

  /** A character that `s` does not hold is in none of its pieces. */
  lemma {:induction false} FieldsWithout(s: string, c: char)
    requires c !in s
    ensures forall i :: 0 <= i < |Fields(s)| ==> c !in Fields(s)[i]
  {
    if s != [] {
      assert forall k :: 0 <= k < |s[1..]| ==> s[1..][k] == s[k + 1];
      FieldsWithout(s[1..], c);
      var rest := Fields(s[1..]);
      if s[0] != '\n' {
        assert c !in [s[0]] + rest[0];
        assert forall i :: 1 <= i < |Fields(s)| ==> Fields(s)[i] == rest[i];
      } else {
        assert forall i :: 1 <= i < |Fields(s)| ==> Fields(s)[i] == rest[i - 1];
      }
    }
  }

  /** A character that `s` does not hold is on none of its lines. */
  lemma SplitWithout(s: string, c: char)
    requires c !in s
    ensures forall i :: 0 <= i < |Split(s)| ==> c !in Split(s)[i]
  {
    FieldsWithout(s, c);
  }

  /** Splitting text built line by line gives the lines back. */
  lemma SplitTerminated(ls: seq<string>)
    requires NoNewlines(ls)
    ensures Split(Terminated(ls)) == DropTrailingEmpty(ls)
  {
    FieldsTerminated(ls);
    assert (ls + [""])[..|ls|] == ls;
  }

  /** Splitting joined lines gives the lines back, minus trailing empty ones. */
  lemma SplitJoin(ls: seq<string>)
    requires NoNewlines(ls)
    ensures Split(Join(ls, "\n")) == DropTrailingEmpty(ls)
  {
    if ls != [] {
      FieldsJoin(ls);
    }
  }

  lemma DropTrailingEmptyKeeps(ls: seq<string>)
    requires ls == [] || ls[|ls| - 1] != ""
    ensures DropTrailingEmpty(ls) == ls
  {
  }

  // ---------------------------------------------------------------------
  // Integer#to_s, "%Wd" and String#to_i
  // ---------------------------------------------------------------------

  function DigitChar(d: nat): (c: char)
    requires d < 10
    ensures IsDigit(c)
  {
    ('0' as int + d) as char
  }

  function DigitValue(c: char): nat
    requires IsDigit(c)
  {
    c as int - '0' as int
  }

  /** `n.to_s`: decimal, no leading zeros. */
  function NatToString(n: nat): (s: string)
    ensures 1 <= |s| && AllDigits(s)
    decreases n
  {
    if n < 10 then [DigitChar(n)] else NatToString(n / 10) + [DigitChar(n % 10)]
  }

  /** `i.to_s` for any integer. */
  function IntToString(i: int): string {
    if i < 0 then "-" + NatToString(-i) else NatToString(i)
  }

  /** The value of a string of decimal digits. */
  function DecimalValue(ds: string): nat
    requires AllDigits(ds)
  {
    if ds == [] then 0 else 10 * DecimalValue(ds[..|ds| - 1]) + DigitValue(ds[|ds| - 1])
  }

  lemma {:induction false} DecimalValueOfNatToString(n: nat)
    ensures DecimalValue(NatToString(n)) == n
    decreases n
  {
    if n >= 10 {
      var s := NatToString(n);
      assert s[..|s| - 1] == NatToString(n / 10);
      DecimalValueOfNatToString(n / 10);
    }
  }

  function Pow10(k: nat): nat {
    if k == 0 then 1 else 10 * Pow10(k - 1)
  }

  /** A number below 10^k has at most k digits. */
  lemma {:induction false} NatToStringLength(n: nat, k: nat)
    requires 1 <= k && n < Pow10(k)
    ensures |NatToString(n)| <= k
    decreases n
  {
    if n >= 10 {
      NatToStringLength(n / 10, k - 1);
    }
  }

  /** `n.to_s.length`. */
  function DigitCount(n: nat): nat {
    |NatToString(n)|
  }

  /** Numbers below a million have at most six digits. */
  lemma DigitCountBelowMillion(n: nat)
    requires n < 1000000
    ensures DigitCount(n) <= 6
  {
    assert Pow10(6) == 1000000;
    NatToStringLength(n, 6);
  }

  function Spaces(k: int): (s: string)
    ensures |s| == if k < 0 then 0 else k
    ensures forall i :: 0 <= i < |s| ==> s[i] == ' '
  {
    if k <= 0 then [] else [' '] + Spaces(k - 1)
  }

  /** `"%#{width}d" % n` for n >= 0: right-aligned, never truncated. */
  function FormatInt(n: nat, width: int): string {
    Spaces(width - |NatToString(n)|) + NatToString(n)
  }

  /**
   * The digits `String#to_i` reads from the front of `s`: a digit, then
   * digits each optionally preceded by a single underscore.
   */
  function LeadingDigits(s: string): (ds: string)
    ensures AllDigits(ds)
    decreases |s|
  {
    if |s| == 0 || !IsDigit(s[0]) then []
    else if |s| >= 3 && s[1] == '_' && IsDigit(s[2]) then [s[0]] + LeadingDigits(s[2..])
    else [s[0]] + LeadingDigits(s[1..])
  }

  /** What follows the optional sign once a decimal-radix prefix `0d` or `0D` is skipped. */
  function Unprefixed(t: string): string {
    if |t| >= 2 && t[0] == '0' && (t[1] == 'd' || t[1] == 'D') then t[2..] else t
  }

  /**
   * `s.to_i`: skip whitespace, read an optional sign, skip a `0d`/`0D`
   * prefix, then read digits; 0 if there are none.
   */
  function ToI(s: string): int {
    if |s| > 0 && IsSpace(s[0]) then ToI(s[1..]) else SignedValue(s)
  }

  /** `to_i` reads the sign and digits after the leading whitespace. */
  lemma {:induction false} ToIAfterSpaces(s: string)
    ensures ToI(s) == SignedValue(s[LeadingSpaces(s)..])
  {
    if |s| > 0 && IsSpace(s[0]) {
      ToIAfterSpaces(s[1..]);
      assert s[1..][LeadingSpaces(s[1..])..] == s[LeadingSpaces(s)..];
    }
  }

  /** The value of an optional sign, an optional `0d`/`0D` and the digits after it. */
  function SignedValue(t: string): int {
    var signed := |t| > 0 && (t[0] == '-' || t[0] == '+');
    var v := DecimalValue(LeadingDigits(Unprefixed(if signed then t[1..] else t)));
    if signed && t[0] == '-' then 0 - v else v
  }

  lemma {:induction false} LeadingDigitsOfDigits(ds: string)
    requires AllDigits(ds)
    ensures LeadingDigits(ds) == ds
  {
    if ds != [] {
      LeadingDigitsOfDigits(ds[1..]);
      assert [ds[0]] + ds[1..] == ds;
    }
  }

  /** `.to_i` of whitespace followed by digits is the digits' value. */
  lemma ToIOfPaddedDigits(ws: string, ds: string)
    requires forall i :: 0 <= i < |ws| ==> IsSpace(ws[i])
    requires ds != [] && AllDigits(ds)
    ensures ToI(ws + ds) == DecimalValue(ds)
  {
    LeadingSpacesOfPadded(ws, ds);
    ToIAfterSpaces(ws + ds);
    assert (ws + ds)[|ws|..] == ds;
    assert Unprefixed(ds) == ds by {
      assert |ds| >= 2 ==> IsDigit(ds[1]);
    }
    LeadingDigitsOfDigits(ds);
  }

  /** `to_i` reads the digits after a `0d` or `0D` prefix, with either sign. */
  lemma ToIOfDecimalPrefix(sign: string, d: char, ds: string)
    requires sign == "" || sign == "-" || sign == "+"
    requires d == 'd' || d == 'D'
    requires AllDigits(ds)
    ensures ToI(sign + ['0', d] + ds) == if sign == "-" then 0 - DecimalValue(ds) else DecimalValue(ds)
  {
    var p := ['0', d] + ds;
    var s := sign + p;
    assert sign + ['0', d] + ds == s;
    assert ToI(s) == SignedValue(s) by {
      assert s[0] == '0' || s[0] == '-' || s[0] == '+';
    }
    assert (if |s| > 0 && (s[0] == '-' || s[0] == '+') then s[1..] else s) == p by {
      if sign != "" {
        assert s[1..] == p;
      }
    }
    UnprefixedDigits(d, ds);
  }

  /** The digits after a `0d` or `0D` prefix are read whole. */
  lemma UnprefixedDigits(d: char, ds: string)
    requires d == 'd' || d == 'D'
    requires AllDigits(ds)
    ensures LeadingDigits(Unprefixed(['0', d] + ds)) == ds
  {
    assert (['0', d] + ds)[2..] == ds;
    LeadingDigitsOfDigits(ds);
  }

  lemma {:induction false} LeadingSpacesOfPadded(ws: string, ds: string)
    requires forall i :: 0 <= i < |ws| ==> IsSpace(ws[i])
    requires ds != [] && !IsSpace(ds[0])
    ensures LeadingSpaces(ws + ds) == |ws|
  {
    if ws == [] {
      assert ws + ds == ds;
    } else {
      assert (ws + ds)[1..] == ws[1..] + ds;
      LeadingSpacesOfPadded(ws[1..], ds);
    }
  }

  // ---------------------------------------------------------------------
  // Greedy groups
  // ---------------------------------------------------------------------

  // A leading greedy group such as `^(.+):...$` ends at the last point
  // from which the rest of the pattern can still match.

  /** The largest q in 1 .. p with ok(q). */
  function LastWhere(ok: nat -> bool, p: nat): (r: Option<nat>)
    ensures r.Some? ==> 1 <= r.value <= p && ok(r.value)
  {
    if p == 0 then None
    else if ok(p) then Some(p)
    else LastWhere(ok, p - 1)
  }

  /** Nothing above the index found satisfies ok, and nothing at all when none is found. */
  lemma {:induction false} LastWhereGreatest(ok: nat -> bool, p: nat)
    ensures var r := LastWhere(ok, p);
      forall q: nat :: (if r.Some? then r.value else 0) < q <= p ==> !ok(q)
  {
    if p > 0 && !ok(p) {
      LastWhereGreatest(ok, p - 1);
    }
  }

  /** Every q in 1 .. p with ok(q) is at most the one found. */
  lemma LastWhereBounds(ok: nat -> bool, p: nat, q: nat)
    requires 1 <= q <= p && ok(q)
    ensures LastWhere(ok, p).Some? && q <= LastWhere(ok, p).value
  {
    LastWhereGreatest(ok, p);
  }

  lemma {:induction false} LastWhereIs(ok: nat -> bool, p: nat, n: nat)
    requires 1 <= n <= p && ok(n)
    requires forall q: nat :: n < q <= p ==> !ok(q)
    ensures LastWhere(ok, p) == Some(n)
  {
    if n < p {
      LastWhereIs(ok, p - 1, n);
    }
  }
}
